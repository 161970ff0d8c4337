/** String building blocks: decimal printing, and fields glued together with a vertical bar. */
module Text {

  /** No bar occurs in `s`. */
  predicate BarFree(s: string) {
    '|' !in s
  }

  function Digit(d: nat): char
    requires d < 10
  {
    ('0' as int + d) as char
  }

  /** The decimal digits of a natural number, without leading zeros. */
  function Digits(n: nat): (s: string)
    ensures |s| > 0
    ensures forall c :: c in s ==> '0' <= c <= '9'
  {
    if n < 10 then [Digit(n)] else Digits(n / 10) + [Digit(n % 10)]
  }

  /** What Python's `str` and Logic Apps' `string` print for an integer. */
  function Decimal(n: int): string {
    if n < 0 then "-" + Digits(-n) else Digits(n)
  }

  function DigitsValue(s: string): int {
    if s == [] then 0 else 10 * DigitsValue(s[..|s| - 1]) + (s[|s| - 1] as int - '0' as int)
  }

  lemma {:induction false} DigitsRoundTrip(n: nat)
    ensures DigitsValue(Digits(n)) == n
  {
    if n < 10 {
      assert Digits(n)[..0] == [];
    } else {
      DigitsRoundTrip(n / 10);
      assert Digits(n)[..|Digits(n)| - 1] == Digits(n / 10);
    }
  }

  lemma DecimalInjective(m: int, n: int)
    requires Decimal(m) == Decimal(n)
    ensures m == n
  {
    DigitsRoundTrip(if m < 0 then -m else m);
    DigitsRoundTrip(if n < 0 then -n else n);
    assert forall k: nat :: Digits(k)[0] in Digits(k) && Digits(k)[0] != '-';
    assert m < 0 <==> Decimal(m)[0] == '-';
    assert n < 0 <==> Decimal(n)[0] == '-';
    if m < 0 {
      assert Decimal(m)[1..] == Digits(-m) && Decimal(n)[1..] == Digits(-n);
    }
  }

  lemma DecimalBarFree(n: int)
    ensures BarFree(Decimal(n))
  {
  }

  /** A prefix without the separator is recovered by splitting at the first separator. */
  lemma SplitAtFirst(a: string, x: string, b: string, y: string, sep: char)
    requires sep !in a && sep !in b
    requires a + [sep] + x == b + [sep] + y
    ensures a == b && x == y
  {
    var s, t := a + [sep] + x, b + [sep] + y;
    assert s[|a|] == sep && t[|b|] == sep;
    assert forall i :: 0 <= i < |a| ==> s[i] == a[i] && a[i] in a;
    assert forall i :: 0 <= i < |b| ==> t[i] == b[i] && b[i] in b;
    assert |a| == |b|;
    assert s[..|a|] == a && t[..|b|] == b;
    assert s[|a| + 1..] == x && t[|b| + 1..] == y;
  }

  /** A suffix without the separator is recovered by splitting at the last separator. */
  lemma SplitAtLast(x: string, a: string, y: string, b: string, sep: char)
    requires sep !in a && sep !in b
    requires x + [sep] + a == y + [sep] + b
    ensures a == b && x == y
  {
    var s, t := x + [sep] + a, y + [sep] + b;
    assert s[|x|] == sep && t[|y|] == sep;
    assert forall i :: |x| < i < |s| ==> s[i] == a[i - |x| - 1] && s[i] in a;
    assert forall i :: |y| < i < |t| ==> t[i] == b[i - |y| - 1] && t[i] in b;
    assert |x| == |y|;
    assert s[..|x|] == x && t[..|y|] == y;
    assert s[|x| + 1..] == a && t[|y| + 1..] == b;
  }

  lemma SplitAtFirstBar(a: string, x: string, b: string, y: string)
    requires BarFree(a) && BarFree(b)
    requires a + "|" + x == b + "|" + y
    ensures a == b && x == y
  {
    SplitAtFirst(a, x, b, y, '|');
  }

  lemma SplitAtLastBar(x: string, a: string, y: string, b: string)
    requires BarFree(a) && BarFree(b)
    requires x + "|" + a == y + "|" + b
    ensures a == b && x == y
  {
    SplitAtLast(x, a, y, b, '|');
  }

  /** Python's order on texts. */
  predicate Less(a: string, b: string) {
    b != "" && (a == "" || a[0] < b[0] || (a[0] == b[0] && Less(a[1..], b[1..])))
  }

  lemma {:induction false} LessIsTotal(a: string, b: string)
    ensures a == b || Less(a, b) || Less(b, a)
    ensures !(Less(a, b) && Less(b, a)) && !Less(a, a)
  {
    if a != "" {
      LessIsTotal(a[1..], a[1..]);
      if b != "" {
        LessIsTotal(a[1..], b[1..]);
        assert a == [a[0]] + a[1..] && b == [b[0]] + b[1..];
      }
    }
  }

  lemma {:induction false} LessIsTransitive(a: string, b: string, c: string)
    requires Less(a, b) && Less(b, c)
    ensures Less(a, c)
  {
    if a != "" && a[0] == b[0] == c[0] {
      LessIsTransitive(a[1..], b[1..], c[1..]);
    }
  }

  /** A common beginning does not matter. */
  lemma {:induction false} LessAfterPrefix(p: string, a: string, b: string)
    ensures Less(p + a, p + b) <==> Less(a, b)
  {
    if p == "" {
      assert p + a == a && p + b == b;
    } else {
      LessAfterPrefix(p[1..], a, b);
      assert (p + a)[1..] == p[1..] + a && (p + b)[1..] == p[1..] + b;
    }
  }

  /** `word` stands in `text` at position `k`. */
  predicate OccursAt(text: string, k: int, word: string) {
    0 <= k <= |text| - |word| && text[k..k + |word|] == word
  }

  /** Python's `word in text`. */
  predicate Mentions(text: string, word: string) {
    exists k | 0 <= k <= |text| :: OccursAt(text, k, word)
  }

  lemma MentionsExactly(text: string, word: string)
    ensures Mentions(text, word) <==> exists a, b :: text == a + word + b
  {
    if Mentions(text, word) {
      var k :| 0 <= k <= |text| && OccursAt(text, k, word);
      assert text == text[..k] + word + text[k + |word|..];
    }
    if a, b :| text == a + word + b {
      assert text[|a|..|a| + |word|] == word;
      assert OccursAt(text, |a|, word);
    }
  }

  /** Python's `"|".join(parts)`. */
  function JoinBars(parts: seq<string>): string {
    if parts == [] then ""
    else if |parts| == 1 then parts[0]
    else parts[0] + "|" + JoinBars(parts[1..])
  }

  lemma {:induction false} JoinBarsInjective(a: seq<string>, b: seq<string>)
    requires |a| == |b|
    requires forall p :: p in a ==> BarFree(p)
    requires forall p :: p in b ==> BarFree(p)
    requires JoinBars(a) == JoinBars(b)
    ensures a == b
  {
    if |a| > 1 {
      SplitAtFirstBar(a[0], JoinBars(a[1..]), b[0], JoinBars(b[1..]));
      JoinBarsInjective(a[1..], b[1..]);
      assert a == [a[0]] + a[1..] && b == [b[0]] + b[1..];
    }
  }
}
