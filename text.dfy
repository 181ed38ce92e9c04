/**
  String helpers the three programs share: the case-insensitive comparison behind their
  switch tests, the ordinal prefix test that recognises "--" flags, string.Join and the
  Int32 parser (int.TryParse with NumberStyles.Integer and the invariant culture).
*/
module Text {
  import opened Wrappers

  // ---------------------------------------------------------------------------
  // Case-insensitive equality

  /** Folds an ASCII upper-case letter to lower case; every other character is unchanged. */
  function FoldCase(c: char): char
  {
    if 'A' <= c <= 'Z' then (c as int + 32) as char else c
  }

  /** string.Equals(a, b, InvariantCultureIgnoreCase), restricted to ASCII case folding. */
  predicate EqualsIgnoreCase(a: string, b: string)
  {
    |a| == |b| && forall i :: 0 <= i < |a| ==> FoldCase(a[i]) == FoldCase(b[i])
  }

  /** Folding is what the comparison compares: two strings are equal ignoring case
      exactly when their folded forms are equal. */
  function Folded(s: string): (t: string)
    ensures |t| == |s|
    ensures forall i :: 0 <= i < |s| ==> t[i] == FoldCase(s[i])
  {
    if s == [] then [] else [FoldCase(s[0])] + Folded(s[1..])
  }

  lemma EqualsIgnoreCaseIsFoldedEquality(a: string, b: string)
    ensures EqualsIgnoreCase(a, b) <==> Folded(a) == Folded(b)
  {
    if Folded(a) == Folded(b) {
      assert |a| == |b|;
      forall i | 0 <= i < |a| ensures FoldCase(a[i]) == FoldCase(b[i]) {
        assert Folded(a)[i] == Folded(b)[i];
      }
    }
  }

  // ---------------------------------------------------------------------------
  // Prefix test and join

  /** s.StartsWith(p), compared character by character: s is p followed by something. */
  predicate StartsWith(s: string, p: string): (b: bool)
    ensures b <==> exists rest :: s == p + rest
  {
    var b := |p| <= |s| && s[..|p|] == p;
    assert b ==> s == p + s[|p|..];
    b
  }

  /** The number of characters in all the words together. */
  function TotalLength(words: seq<string>): nat
  {
    if words == [] then 0 else |words[0]| + TotalLength(words[1..])
  }

  /** string.Join(sep, words): the words in order with one separator between neighbours. */
  function Join(sep: string, words: seq<string>): (s: string)
    ensures words == [] ==> s == []
    ensures words != [] ==> |s| == TotalLength(words) + |sep| * (|words| - 1)
    ensures words != [] ==> StartsWith(s, words[0])
  {
    if words == [] then []
    else if |words| == 1 then words[0]
    else words[0] + sep + Join(sep, words[1..])
  }

  /** Splits s at every occurrence of c; the inverse of Join with a one-character separator. */
  function Split(s: string, c: char): (parts: seq<string>)
    ensures |parts| > 0
  {
    if s == [] then [[]]
    else
      var rest := Split(s[1..], c);
      if s[0] == c then [[]] + rest else [[s[0]] + rest[0]] + rest[1..]
  }

  lemma {:induction false} SplitWord(w: string, c: char)
    requires c !in w
    ensures Split(w, c) == [w]
  {
    if w != [] {
      SplitWord(w[1..], c);
      assert [w[0]] + w[1..] == w;
    }
  }

  lemma {:induction false} SplitWordThenSeparator(w: string, c: char, rest: string)
    requires c !in w
    ensures Split(w + [c] + rest, c) == [w] + Split(rest, c)
  {
    if w == [] {
      assert w + [c] + rest == [c] + rest;
      assert ([c] + rest)[1..] == rest;
    } else {
      SplitWordThenSeparator(w[1..], c, rest);
      assert (w + [c] + rest)[1..] == w[1..] + [c] + rest;
      assert [w[0]] + w[1..] == w;
    }
  }

  /** Joining words that do not contain the separator character can be undone by splitting. */
  lemma {:induction false} SplitJoin(words: seq<string>, c: char)
    requires |words| > 0
    requires forall i :: 0 <= i < |words| ==> c !in words[i]
    ensures Split(Join([c], words), c) == words
  {
    if |words| == 1 {
      SplitWord(words[0], c);
    } else {
      SplitJoin(words[1..], c);
      SplitWordThenSeparator(words[0], c, Join([c], words[1..]));
      assert [words[0]] + words[1..] == words;
    }
  }

  // ---------------------------------------------------------------------------
  // int.TryParse(s, NumberStyles.Integer, CultureInfo.InvariantCulture, out c)

  const MinInt32: int := -0x8000_0000
  const MaxInt32: int := 0x7fff_ffff

  /** The white space NumberStyles.AllowLeadingWhite and AllowTrailingWhite accept. */
  predicate IsWhite(c: char) { c == ' ' || '\t' <= c <= '\r' }

  predicate IsDigit(c: char) { '0' <= c <= '9' }

  predicate AllDigits(s: string) { forall i :: 0 <= i < |s| ==> IsDigit(s[i]) }

  function TrimStartWhite(s: string): (t: string)
    ensures |t| <= |s| && t == s[|s| - |t|..]
    ensures t != [] ==> !IsWhite(t[0])
  {
    if s != [] && IsWhite(s[0]) then TrimStartWhite(s[1..]) else s
  }

  function TrimEndWhite(s: string): (t: string)
    ensures |t| <= |s| && t == s[..|t|]
    ensures t != [] ==> !IsWhite(t[|t| - 1])
  {
    if s != [] && IsWhite(s[|s| - 1]) then TrimEndWhite(s[..|s| - 1]) else s
  }

  /** The value of a run of decimal digits, most significant first. */
  function DigitsValue(ds: string): nat
    requires AllDigits(ds)
  {
    if ds == [] then 0 else DigitsValue(ds[..|ds| - 1]) * 10 + (ds[|ds| - 1] as int - '0' as int)
  }

  /** Some(value) when s is [white][sign]digits[white] and the value fits in an Int32; None otherwise. */
  function TryParseInt(s: string): (r: Option<int>)
    ensures r.Some? ==> MinInt32 <= r.value <= MaxInt32
  {
    var t := TrimEndWhite(TrimStartWhite(s));
    if t == [] then None
    else
      var negative := t[0] == '-';
      var digits := if t[0] == '-' || t[0] == '+' then t[1..] else t;
      if digits == [] || !AllDigits(digits) then None
      else
        var v: int := if negative then 0 - DigitsValue(digits) as int else DigitsValue(digits);
        if MinInt32 <= v <= MaxInt32 then Some(v) else None
  }

  /** What int.TryParse leaves in its out parameter: the value, or 0 on failure. */
  function ParsedOrZero(s: string): int
  {
    match TryParseInt(s)
    case Some(x) => x
    case None => 0
  }

  /** The decimal digits of n, most significant first, without leading zeros. */
  function NatToDigits(n: nat): (ds: string)
    ensures |ds| > 0 && AllDigits(ds)
  {
    if n < 10 then [('0' as int + n) as char]
    else NatToDigits(n / 10) + [('0' as int + n % 10) as char]
  }

  /** n.ToString() in the invariant culture. */
  function IntToString(n: int): string
  {
    if n < 0 then "-" + NatToDigits(-n) else NatToDigits(n)
  }

  lemma {:induction false} DigitsValueOfNatToDigits(n: nat)
    ensures DigitsValue(NatToDigits(n)) == n
  {
    if n >= 10 {
      DigitsValueOfNatToDigits(n / 10);
      var ds := NatToDigits(n);
      assert ds[..|ds| - 1] == NatToDigits(n / 10);
    }
  }

  /** Every Int32 survives being printed and parsed back. */
  lemma TryParseIntToString(n: int)
    requires MinInt32 <= n <= MaxInt32
    ensures TryParseInt(IntToString(n)) == Some(n)
  {
    var s := IntToString(n);
    var ds := NatToDigits(if n < 0 then -n else n);
    DigitsValueOfNatToDigits(if n < 0 then -n else n);
    assert !IsWhite(s[0]);
    assert TrimStartWhite(s) == s;
    assert s[|s| - 1] == ds[|ds| - 1];
    assert TrimEndWhite(s) == s;
    if n < 0 {
      assert s[1..] == ds;
    }
  }
}
