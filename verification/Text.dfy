// Strings as the repository compares, sorts and pads them.
module Text {

  datatype Option<+T> = None | Some(value: T)

  /** Lexicographic order by code point: Python's `<` on strings. */
  predicate Before(a: string, b: string) {
    b != [] && (a == [] || a[0] < b[0] || (a[0] == b[0] && Before(a[1..], b[1..])))
  }

  lemma {:induction false} BeforeIrreflexive(a: string)
    ensures !Before(a, a)
  {
    if a != [] {
      BeforeIrreflexive(a[1..]);
    }
  }

  lemma {:induction false} BeforeTotal(a: string, b: string)
    ensures Before(a, b) || a == b || Before(b, a)
  {
    if a != [] && b != [] && a[0] == b[0] {
      BeforeTotal(a[1..], b[1..]);
      assert a == [a[0]] + a[1..] && b == [b[0]] + b[1..];
    }
  }

  lemma {:induction false} BeforeTransitive(a: string, b: string, c: string)
    requires Before(a, b) && Before(b, c)
    ensures Before(a, c)
  {
    if a != [] && a[0] == b[0] == c[0] {
      BeforeTransitive(a[1..], b[1..], c[1..]);
    }
  }

  lemma BeforeAsymmetric(a: string, b: string)
    requires Before(a, b)
    ensures !Before(b, a) && a != b
  {
    BeforeIrreflexive(a);
    if Before(b, a) {
      BeforeTransitive(a, b, a);
    }
  }

  /** Equal-length heads decide first; the tails decide only a tie. */
  lemma {:induction false} BeforeOfConcat(a: string, b: string, c: string, d: string)
    requires |a| == |b|
    ensures Before(a + c, b + d) <==> Before(a, b) || (a == b && Before(c, d))
  {
    if a == [] {
      assert a + c == c && b + d == d;
    } else {
      BeforeOfConcat(a[1..], b[1..], c, d);
      assert (a + c)[1..] == a[1..] + c && (b + d)[1..] == b[1..] + d;
      assert a == [a[0]] + a[1..] && b == [b[0]] + b[1..];
    }
  }

  // ---- blanks, and letter case for the ASCII letters ----

  /** Python's `str.isspace` on one character. */
  predicate IsSpace(c: char) {
    '\t' <= c <= '\r' || '\U{1C}' <= c <= ' ' || c == '\U{85}' || c == '\U{A0}' || c == '\U{1680}' ||
    '\U{2000}' <= c <= '\U{200A}' || c == '\U{2028}' || c == '\U{2029}' || c == '\U{202F}' ||
    c == '\U{205F}' || c == '\U{3000}'
  }

  function LowerChar(c: char): char {
    if 'A' <= c <= 'Z' then (c as int + 32) as char else c
  }

  function UpperChar(c: char): char {
    if 'a' <= c <= 'z' then (c as int - 32) as char else c
  }

  function Lower(s: string): string {
    seq(|s|, i requires 0 <= i < |s| => LowerChar(s[i]))
  }

  function Upper(s: string): string {
    seq(|s|, i requires 0 <= i < |s| => UpperChar(s[i]))
  }

  function StripLeft(s: string): string {
    if s != [] && IsSpace(s[0]) then StripLeft(s[1..]) else s
  }

  function StripRight(s: string): string {
    if s != [] && IsSpace(s[|s| - 1]) then StripRight(s[..|s| - 1]) else s
  }

  function Strip(s: string): string {
    StripRight(StripLeft(s))
  }

  predicate AllBlank(s: string) {
    forall c | c in s :: IsSpace(c)
  }

  /** Neither end is a blank. */
  predicate Trim(s: string) {
    s == [] || (!IsSpace(s[0]) && !IsSpace(s[|s| - 1]))
  }

  lemma {:induction false} StripLeftIs(s: string) returns (a: string)
    ensures AllBlank(a) && s == a + StripLeft(s) && (StripLeft(s) == [] || !IsSpace(StripLeft(s)[0]))
  {
    a := [];
    if s != [] && IsSpace(s[0]) {
      var rest := StripLeftIs(s[1..]);
      a := [s[0]] + rest;
      assert s == [s[0]] + s[1..];
    }
  }

  lemma {:induction false} StripRightIs(s: string) returns (b: string)
    ensures AllBlank(b) && s == StripRight(s) + b
    ensures StripRight(s) == [] || !IsSpace(StripRight(s)[|StripRight(s)| - 1])
  {
    b := [];
    if s != [] && IsSpace(s[|s| - 1]) {
      var rest := StripRightIs(s[..|s| - 1]);
      b := rest + [s[|s| - 1]];
      assert s == s[..|s| - 1] + [s[|s| - 1]];
    }
  }

  /** Stripping takes blanks off both ends, and all of them. */
  lemma StripIs(s: string) returns (a: string, b: string)
    ensures AllBlank(a) && AllBlank(b) && s == a + Strip(s) + b && Trim(Strip(s))
  {
    a := StripLeftIs(s);
    b := StripRightIs(StripLeft(s));
    assert StripLeft(s) == Strip(s) + b;
    assert Strip(s) != [] ==> StripLeft(s)[0] == Strip(s)[0];
    assert a + (Strip(s) + b) == a + Strip(s) + b;
  }

  lemma {:induction false} StripLeftAround(a: string, t: string)
    requires AllBlank(a) && (t == [] || !IsSpace(t[0]))
    ensures StripLeft(a + t) == t
  {
    if a == [] {
      assert [] + t == t;
    } else {
      assert a[0] in a && forall c | c in a[1..] :: c in a;
      assert (a + t)[1..] == a[1..] + t;
      StripLeftAround(a[1..], t);
    }
  }

  lemma {:induction false} StripRightAround(t: string, b: string)
    requires AllBlank(b) && (t == [] || !IsSpace(t[|t| - 1]))
    ensures StripRight(t + b) == t
  {
    if b == [] {
      assert t + [] == t;
    } else {
      assert b[|b| - 1] in b && forall c | c in b[..|b| - 1] :: c in b;
      assert (t + b)[..|t + b| - 1] == t + b[..|b| - 1];
      StripRightAround(t, b[..|b| - 1]);
    }
  }

  /** There is only one such part. */
  lemma StripAround(a: string, t: string, b: string)
    requires AllBlank(a) && AllBlank(b) && Trim(t)
    ensures Strip(a + t + b) == t
  {
    if t == [] {
      assert a + t + b == (a + b) + [];
      StripLeftAround(a + b, []);
    } else {
      assert a + t + b == a + (t + b);
      StripLeftAround(a, t + b);
      StripRightAround(t, b);
    }
  }

  const CAPITALS := "ABCDEFGHIJKLMNOPQRSTUVWXYZ"
  const SMALL := "abcdefghijklmnopqrstuvwxyz"

  /** Letter by letter; every other character is its own upper and lower case. */
  lemma CasesAre(c: char, i: nat)
    requires i < 26
    ensures LowerChar(CAPITALS[i]) == SMALL[i] && UpperChar(SMALL[i]) == CAPITALS[i]
    ensures !('A' <= c <= 'Z') ==> LowerChar(c) == c
    ensures !('a' <= c <= 'z') ==> UpperChar(c) == c
  {
  }

  // ---- zero-padded decimal numbers ----

  function DigitChar(d: nat): char
    requires d < 10
  {
    ('0' as int + d) as char
  }

  predicate IsDigit(c: char) {
    '0' <= c <= '9'
  }

  function Pow10(w: nat): (p: nat)
    ensures p >= 1
  {
    if w == 0 then 1 else 10 * Pow10(w - 1)
  }

  /** `n` in exactly `w` decimal digits. */
  function Digits(n: nat, w: nat): (s: string)
    ensures |s| == w && forall c | c in s :: IsDigit(c)
  {
    if w == 0 then [] else Digits(n / 10, w - 1) + [DigitChar(n % 10)]
  }

  function DigitsValue(s: string): Option<nat> {
    if s == [] then Some(0)
    else
      var last := s[|s| - 1];
      match DigitsValue(s[..|s| - 1])
      case None => None
      case Some(n) => if IsDigit(last) then Some(10 * n + (last as int - '0' as int)) else None
  }

  lemma {:induction false} DigitsValueOfDigits(n: nat, w: nat)
    requires n < Pow10(w)
    ensures DigitsValue(Digits(n, w)) == Some(n)
  {
    if w > 0 {
      DigitsValueOfDigits(n / 10, w - 1);
      assert Digits(n, w)[..w - 1] == Digits(n / 10, w - 1);
    }
  }

  lemma {:induction false} DigitsOfDigitsValue(s: string)
    requires DigitsValue(s).Some?
    ensures DigitsValue(s).value < Pow10(|s|) && Digits(DigitsValue(s).value, |s|) == s
  {
    if s != [] {
      DigitsOfDigitsValue(s[..|s| - 1]);
      assert s == s[..|s| - 1] + [s[|s| - 1]];
    }
  }

  lemma {:induction false} DigitsOrder(n: nat, m: nat, w: nat)
    requires n < Pow10(w) && m < Pow10(w)
    ensures Before(Digits(n, w), Digits(m, w)) <==> n < m
    ensures Digits(n, w) == Digits(m, w) <==> n == m
  {
    DigitsValueOfDigits(n, w);
    DigitsValueOfDigits(m, w);
    if w > 0 {
      DigitsOrder(n / 10, m / 10, w - 1);
      BeforeOfConcat(Digits(n / 10, w - 1), Digits(m / 10, w - 1), [DigitChar(n % 10)], [DigitChar(m % 10)]);
    }
  }

  // ---- sorted(set of strings) ----

  predicate Ascending(ks: seq<string>) {
    forall i, j | 0 <= i < j < |ks| :: Before(ks[i], ks[j])
  }

  lemma LeastExists(s: set<string>) returns (k: string)
    requires s != {}
    ensures k in s && forall x | x in s && x != k :: Before(k, x)
  {
    var a :| a in s;
    k := a;
    var rest := s - {a};
    if rest != {} {
      var b := LeastExists(rest);
      BeforeTotal(a, b);
      if Before(b, a) {
        k := b;
        assert forall x | x in s :: x == a || x in rest;
      } else {
        forall x | x in rest ensures Before(a, x) {
          if x != b {
            BeforeTransitive(a, b, x);
          }
        }
        assert forall x | x in s && x != a :: x in rest;
      }
    } else {
      assert forall x | x in s :: x == a || x in rest;
    }
  }

  /** Python's `sorted` on a set of strings. */
  ghost function Sorted(s: set<string>): (ks: seq<string>)
    ensures Ascending(ks) && |ks| == |s|
    ensures forall x :: x in ks <==> x in s
  {
    if s == {} then []
    else
      assert exists k :: k in s && forall x | x in s && x != k :: Before(k, x) by {
        var k := LeastExists(s);
      }
      var k :| k in s && forall x | x in s && x != k :: Before(k, x);
      [k] + Sorted(s - {k})
  }
}
