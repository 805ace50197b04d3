/**
 * The few pieces of Go's `strings` package and of `strconv` that the
 * modelled code relies on, written over `string` (a `seq<char>`).
 */
module Text {
  import opened Wrappers

  predicate IsDigit(c: char) {
    '0' <= c <= '9'
  }

  /** The characters of RE2's `\s` class, as used by Go's `regexp`. */
  predicate IsSpace(c: char) {
    c == ' ' || c == '\t' || c == '\n' || c == 12 as char || c == '\r'
  }

  predicate AllDigits(s: string) {
    forall i :: 0 <= i < |s| ==> IsDigit(s[i])
  }

  /** Glues pieces back together with one separator between neighbours. */
  function Join(parts: seq<string>, sep: char): string
  {
    if |parts| == 0 then ""
    else if |parts| == 1 then parts[0]
    else parts[0] + [sep] + Join(parts[1..], sep)
  }

  /**
   * `strings.Split(s, sep)` for a one-character separator: the pieces
   * between the separators, so `n` separators give `n + 1` pieces and the
   * empty string gives one empty piece.
   */
  function Split(s: string, sep: char): (parts: seq<string>)
    ensures |parts| >= 1
    ensures forall i :: 0 <= i < |parts| ==> sep !in parts[i]
    ensures Join(parts, sep) == s
    decreases |s|
  {
    if |s| == 0 then [""]
    else
      var rest := Split(s[1..], sep);
      if s[0] == sep then
        assert ([""] + rest)[1..] == rest;
        [""] + rest
      else
        var parts := [[s[0]] + rest[0]] + rest[1..];
        assert s == [s[0]] + s[1..];
        assert |rest| > 1 ==> Join(rest, sep) == rest[0] + [sep] + Join(rest[1..], sep);
        assert |parts| > 1 ==> parts[1..] == rest[1..];
        parts
  }

  /** A piece free of the separator splits to itself. */
  lemma {:induction false} SplitNoSep(a: string, sep: char)
    requires sep !in a
    ensures Split(a, sep) == [a]
    decreases |a|
  {
    if |a| > 0 {
      SplitNoSep(a[1..], sep);
      assert [a[0]] + a[1..] == a;
    }
  }

  /** Splitting `a + sep + t` peels off the separator-free piece `a`. */
  lemma {:induction false} SplitCons(a: string, sep: char, t: string)
    requires sep !in a
    ensures Split(a + [sep] + t, sep) == [a] + Split(t, sep)
    decreases |a|
  {
    var s := a + [sep] + t;
    if |a| == 0 {
      assert s[0] == sep && s[1..] == t;
    } else {
      assert s[0] == a[0] && s[1..] == a[1..] + [sep] + t;
      SplitCons(a[1..], sep, t);
      assert [a[0]] + a[1..] == a;
    }
  }

  /** Splitting undoes joining, provided no piece holds the separator. */
  lemma {:induction false} SplitJoin(parts: seq<string>, sep: char)
    requires |parts| >= 1
    requires forall i :: 0 <= i < |parts| ==> sep !in parts[i]
    ensures Split(Join(parts, sep), sep) == parts
    decreases |parts|
  {
    if |parts| == 1 {
      SplitNoSep(parts[0], sep);
    } else {
      SplitJoin(parts[1..], sep);
      SplitCons(parts[0], sep, Join(parts[1..], sep));
      assert [parts[0]] + parts[1..] == parts;
    }
  }

  /** A string splits into more than one piece exactly when it holds the separator. */
  lemma SplitMany(s: string, sep: char)
    ensures |Split(s, sep)| >= 2 <==> sep in s
  {
    var parts := Split(s, sep);
    if |parts| == 1 {
      assert s == parts[0];
    } else {
      assert s == parts[0] + [sep] + Join(parts[1..], sep);
      assert s[|parts[0]|] == sep;
    }
  }

  /** Two separator-free pieces joined by the separator split back into those two. */
  lemma SplitPair(a: string, sep: char, b: string)
    requires sep !in a && sep !in b
    ensures Split(a + [sep] + b, sep) == [a, b]
  {
    SplitCons(a, sep, b);
    SplitNoSep(b, sep);
  }

  /** `strings.TrimLeft(s, cut)`: drops the longest prefix made of `cut` characters. */
  function TrimLeft(s: string, cut: set<char>): (r: string)
    ensures |r| <= |s| && r == s[|s| - |r|..]
    ensures forall i :: 0 <= i < |s| - |r| ==> s[i] in cut
    ensures |r| > 0 ==> r[0] !in cut
    decreases |s|
  {
    if |s| > 0 && s[0] in cut then TrimLeft(s[1..], cut) else s
  }

  /** `strings.TrimRight(s, cut)`: drops the longest suffix made of `cut` characters. */
  function TrimRight(s: string, cut: set<char>): (r: string)
    ensures |r| <= |s| && r == s[..|r|]
    ensures forall i :: |r| <= i < |s| ==> s[i] in cut
    ensures |r| > 0 ==> r[|r| - 1] !in cut
    decreases |s|
  {
    if |s| > 0 && s[|s| - 1] in cut then TrimRight(s[..|s| - 1], cut) else s
  }

  /** The slice `s[i..j]` leaves only `cut` characters on either side. */
  predicate CutAround(s: string, cut: set<char>, i: int, j: int) {
    && 0 <= i <= j <= |s|
    && (forall k :: 0 <= k < i ==> s[k] in cut)
    && (forall k :: j <= k < |s| ==> s[k] in cut)
  }

  /**
   * `strings.Trim(s, cut)`: both ends. The result is a slice of `s` with
   * only `cut` characters around it and none at its own ends, so it is the
   * longest such slice.
   */
  function Trim(s: string, cut: set<char>): (r: string)
    ensures exists i, j :: CutAround(s, cut, i, j) && r == s[i..j]
    ensures |r| > 0 ==> r[0] !in cut && r[|r| - 1] !in cut
    ensures |r| <= |s|
  {
    var left := TrimLeft(s, cut);
    var r := TrimRight(left, cut);
    TrimBothEnds(s, cut, left, r);
    r
  }

  /** A cut-free-ended slice of a cut-free-ended suffix is a slice with only cut characters around it. */
  lemma TrimBothEnds(s: string, cut: set<char>, left: string, r: string)
    requires |left| <= |s| && left == s[|s| - |left|..]
    requires forall k :: 0 <= k < |s| - |left| ==> s[k] in cut
    requires |r| <= |left| && r == left[..|r|]
    requires forall k :: |r| <= k < |left| ==> left[k] in cut
    ensures CutAround(s, cut, |s| - |left|, |s| - |left| + |r|)
    ensures r == s[|s| - |left|..|s| - |left| + |r|]
  {
    var i := |s| - |left|;
    assert left == s[i..];
    assert r == left[..|r|];
    assert r == s[i..i + |r|];
    forall k | i + |r| <= k < |s|
      ensures s[k] in cut
    {
      assert s[k] == left[k - i];
    }
  }

  /** Trimming a string padded with `cut` characters on both sides gives back the string. */
  lemma TrimPadded(front: string, core: string, back: string, cut: set<char>)
    requires forall k :: 0 <= k < |front| ==> front[k] in cut
    requires forall k :: 0 <= k < |back| ==> back[k] in cut
    requires |core| > 0 && core[0] !in cut && core[|core| - 1] !in cut
    ensures Trim(front + core + back, cut) == core
  {
    assert front + core + back == front + (core + back);
    TrimLeftPadding(front, core + back, cut);
    TrimRightPadding(core, back, cut);
  }

  /** A string whose last character is not cut is kept intact by TrimRight of a padded string. */
  lemma {:induction false} TrimRightPadding(s: string, pad: string, cut: set<char>)
    requires forall i :: 0 <= i < |pad| ==> pad[i] in cut
    requires |s| > 0 && s[|s| - 1] !in cut
    ensures TrimRight(s + pad, cut) == s
    decreases |pad|
  {
    if |pad| > 0 {
      assert (s + pad)[..|s + pad| - 1] == s + pad[..|pad| - 1];
      TrimRightPadding(s, pad[..|pad| - 1], cut);
    } else {
      assert s + pad == s;
    }
  }

  /** A prefix free of `cut` characters is kept intact by TrimLeft of a padded string. */
  lemma {:induction false} TrimLeftPadding(pad: string, s: string, cut: set<char>)
    requires forall i :: 0 <= i < |pad| ==> pad[i] in cut
    requires |s| > 0 && s[0] !in cut
    ensures TrimLeft(pad + s, cut) == s
    decreases |pad|
  {
    if |pad| > 0 {
      assert (pad + s)[1..] == pad[1..] + s;
      TrimLeftPadding(pad[1..], s, cut);
    }
  }

  function DigitValue(c: char): nat
    requires IsDigit(c)
  {
    (c as int - '0' as int) as nat
  }

  function DigitChar(d: nat): (c: char)
    requires d < 10
    ensures IsDigit(c) && DigitValue(c) == d
  {
    ('0' as int + d) as char
  }

  /** The value of a run of decimal digits, most significant first. */
  function DigitsValue(s: string): nat
    requires AllDigits(s)
    decreases |s|
  {
    if |s| == 0 then 0
    else DigitsValue(s[..|s| - 1]) * 10 + DigitValue(s[|s| - 1])
  }

  /** `strconv.Atoi` restricted to unsigned input: a non-empty run of decimal digits. */
  function ParseNat(s: string): (r: Option<nat>)
    ensures r.Some? <==> |s| > 0 && AllDigits(s)
  {
    if |s| > 0 && AllDigits(s) then Some(DigitsValue(s)) else None
  }

  /** Decimal rendering without leading zeros (`fmt.Sprint` of a non-negative int). */
  function ShowNat(n: nat): (s: string)
    ensures |s| > 0 && AllDigits(s)
    ensures ParseNat(s) == Some(n)
    decreases n
  {
    if n < 10 then
      var s := [DigitChar(n)];
      assert s[..0] == [];
      assert DigitsValue(s) == DigitsValue([]) * 10 + n;
      s
    else
      var s := ShowNat(n / 10) + [DigitChar(n % 10)];
      assert s[..|s| - 1] == ShowNat(n / 10);
      s
  }
}
