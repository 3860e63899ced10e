/**
 * Character-sequence helpers shared by the server script and the browser
 * validator: trimming with a given whitespace set, prefixes, occurrence
 * search (the behaviour of PHP's strpos) and ASCII lower-casing.
 */
module Text {
  import opened Wrappers

  /** True when every character of `s` belongs to `ws`. */
  predicate AllIn(s: string, ws: set<char>)
  {
    forall c :: c in s ==> c in ws
  }

  /** Drops the leading characters of `s` that belong to `ws`. */
  function TrimStart(s: string, ws: set<char>): (r: string)
    ensures |r| <= |s| && r == s[|s| - |r|..]
    ensures r != [] ==> r[0] !in ws
    ensures AllIn(s[..|s| - |r|], ws)
    decreases |s|
  {
    if s != [] && s[0] in ws then
      var r := TrimStart(s[1..], ws);
      assert s[1..][..|s| - 1 - |r|] == s[1..|s| - |r|];
      r
    else s
  }

  /** Drops the trailing characters of `s` that belong to `ws`. */
  function TrimEnd(s: string, ws: set<char>): (r: string)
    ensures |r| <= |s| && r == s[..|r|]
    ensures r != [] ==> r[|r| - 1] !in ws
    ensures AllIn(s[|r|..], ws)
    decreases |s|
  {
    if s != [] && s[|s| - 1] in ws then
      var r := TrimEnd(s[..|s| - 1], ws);
      assert s[..|s| - 1][|r|..] == s[|r|..|s| - 1];
      r
    else s
  }

  /**
   * Removes the characters of `ws` from both ends of `s`: the result is the
   * slice s[lo..lo+|r|] for some `lo`, everything cut off is whitespace, and
   * the result neither starts nor ends with whitespace.
   */
  function Trim(s: string, ws: set<char>): (r: string)
    ensures |r| <= |s|
  {
    TrimEnd(TrimStart(s, ws), ws)
  }

  /**
   * Trim's result is the slice s[lo..lo+|r|] for some `lo`, everything cut
   * off is whitespace, and the result neither starts nor ends with
   * whitespace; it is empty exactly when `s` is all whitespace.
   */
  lemma TrimSpec(s: string, ws: set<char>)
    ensures var r := Trim(s, ws);
      Stripped(r, ws)
      && (r == [] <==> AllIn(s, ws))
      && exists lo :: TrimmedAt(s, ws, r, lo)
  {
    TrimFacts(s, ws, TrimStart(s, ws), TrimEnd(TrimStart(s, ws), ws));
  }

  /** `r` neither starts nor ends with a character of `ws`. */
  predicate Stripped(r: string, ws: set<char>)
  {
    r != [] ==> r[0] !in ws && r[|r| - 1] !in ws
  }

  /** `r` is `s` with whitespace cut from before index `lo` and after `lo + |r|`. */
  predicate TrimmedAt(s: string, ws: set<char>, r: string, lo: int)
  {
    0 <= lo <= |s| - |r| && r == s[lo..lo + |r|]
    && AllIn(s[..lo], ws) && AllIn(s[lo + |r|..], ws)
  }

  lemma TrimFacts(s: string, ws: set<char>, t: string, r: string)
    requires |t| <= |s| && t == s[|s| - |t|..] && AllIn(s[..|s| - |t|], ws) && (t != [] ==> t[0] !in ws)
    requires |r| <= |t| && r == t[..|r|] && AllIn(t[|r|..], ws) && (r != [] ==> r[|r| - 1] !in ws)
    ensures |r| <= |s|
    ensures Stripped(r, ws)
    ensures r == [] <==> AllIn(s, ws)
    ensures exists lo :: TrimmedAt(s, ws, r, lo)
  {
    var lo := |s| - |t|;
    assert r == s[lo..lo + |r|] by {
      assert r == t[..|r|];
    }
    assert AllIn(s[lo + |r|..], ws) by {
      assert s[lo + |r|..] == t[|r|..];
    }
    if r == [] {
      assert s == s[..lo] + t;
      AllInConcat(s[..lo], t, ws);
    } else {
      assert s[lo] == r[0];
    }
    assert TrimmedAt(s, ws, r, lo);
  }

  lemma AllInConcat(a: string, b: string, ws: set<char>)
    requires AllIn(a, ws) && AllIn(b, ws)
    ensures AllIn(a + b, ws)
  {
  }

  /** Trimming twice is the same as trimming once. */
  lemma TrimIdempotent(s: string, ws: set<char>)
    ensures Trim(Trim(s, ws), ws) == Trim(s, ws)
  {
    var r := Trim(s, ws);
    TrimSpec(s, ws);
    if r != [] {
      assert TrimStart(r, ws) == r;
      assert TrimEnd(r, ws) == r;
    }
  }

  /** `p` is a prefix of `s`. */
  predicate IsPrefix(p: string, s: string)
  {
    |p| <= |s| && s[..|p|] == p
  }

  /** `needle` occurs in `hay` starting at index `i`. */
  predicate OccursAt(hay: string, needle: string, i: int)
  {
    0 <= i && i + |needle| <= |hay| && hay[i..i + |needle|] == needle
  }

  /**
   * The first index at or after `from` where `needle` occurs in `hay`,
   * or None when there is none.
   */
  function FindFrom(hay: string, needle: string, from: nat): (r: Option<nat>)
    ensures r.Some? ==> from <= r.value
    decreases |hay| - from
  {
    if from + |needle| > |hay| then None
    else if hay[from..from + |needle|] == needle then Some(from)
    else FindFrom(hay, needle, from + 1)
  }

  /** FindFrom returns the first occurrence at or after `from`, if there is one. */
  lemma {:induction false} FindFromSpec(hay: string, needle: string, from: nat)
    ensures var r := FindFrom(hay, needle, from);
      (r.Some? ==> OccursAt(hay, needle, r.value)
                   && forall i :: from <= i < r.value ==> !OccursAt(hay, needle, i))
      && (r.None? ==> forall i :: from <= i ==> !OccursAt(hay, needle, i))
    decreases |hay| - from
  {
    if from + |needle| <= |hay| && hay[from..from + |needle|] != needle {
      FindFromSpec(hay, needle, from + 1);
    }
  }

  /**
   * PHP's strpos with offset 0: the index of the first occurrence of
   * `needle` in `hay`, None standing for PHP's `false`.
   */
  function StrPos(hay: string, needle: string): (r: Option<nat>)
  {
    FindFrom(hay, needle, 0)
  }

  /** StrPos finds the first occurrence, and finds none only when there is none. */
  lemma StrPosSpec(hay: string, needle: string)
    ensures var r := StrPos(hay, needle);
      (r.Some? ==> OccursAt(hay, needle, r.value)
                   && forall i :: 0 <= i < r.value ==> !OccursAt(hay, needle, i))
      && (r.None? <==> forall i :: !OccursAt(hay, needle, i))
  {
    FindFromSpec(hay, needle, 0);
  }

  /** `strpos($hay, $p) === 0` holds exactly when `p` is a prefix of `hay`. */
  lemma StrPosZeroIffPrefix(hay: string, p: string)
    ensures StrPos(hay, p) == Some(0) <==> IsPrefix(p, hay)
  {
    StrPosSpec(hay, p);
    if IsPrefix(p, hay) {
      assert OccursAt(hay, p, 0);
    }
  }

  /** Upper-case ASCII letters map to lower case; every other character is kept. */
  function AsciiLowerChar(c: char): (d: char)
  {
    if 'A' <= c <= 'Z' then (c as int - 'A' as int + 'a' as int) as char else c
  }

  /** Lower-cases the ASCII letters of `s`, position by position. */
  function AsciiLower(s: string): (r: string)
    ensures |r| == |s|
    ensures forall i :: 0 <= i < |s| ==> r[i] == AsciiLowerChar(s[i])
  {
    seq(|s|, i requires 0 <= i < |s| => AsciiLowerChar(s[i]))
  }

  /** Lower-casing commutes with taking a slice. */
  lemma AsciiLowerSlice(s: string, i: nat, j: nat)
    requires i <= j <= |s|
    ensures AsciiLower(s)[i..j] == AsciiLower(s[i..j])
  {
  }

  /** `needle` occurs in `hay` at index `i` when ASCII letter case is ignored. */
  predicate OccursAtIgnoringCase(hay: string, needle: string, i: int)
  {
    0 <= i && i + |needle| <= |hay| && AsciiLower(hay[i..i + |needle|]) == AsciiLower(needle)
  }

  /**
   * PHP's stripos with offset 0, with ASCII case folding: the first index
   * where `needle` occurs in `hay` ignoring the case of ASCII letters.
   */
  function StrIPos(hay: string, needle: string): (r: Option<nat>)
  {
    StrPos(AsciiLower(hay), AsciiLower(needle))
  }

  /**
   * StrIPos finds the first occurrence ignoring case, and finds one exactly
   * when there is one.
   */
  lemma StrIPosSpec(hay: string, needle: string)
    ensures var r := StrIPos(hay, needle);
      (r.Some? ==> OccursAtIgnoringCase(hay, needle, r.value)
                   && forall i :: 0 <= i < r.value ==> !OccursAtIgnoringCase(hay, needle, i))
      && (r.None? <==> forall i :: !OccursAtIgnoringCase(hay, needle, i))
  {
    var r := StrPos(AsciiLower(hay), AsciiLower(needle));
    StrPosSpec(AsciiLower(hay), AsciiLower(needle));
    if r.Some? {
      assert OccursAt(AsciiLower(hay), AsciiLower(needle), r.value);
      AsciiLowerSlice(hay, r.value, r.value + |needle|);
      assert OccursAtIgnoringCase(hay, needle, r.value);
      forall i | 0 <= i < r.value ensures !OccursAtIgnoringCase(hay, needle, i) {
        if i + |needle| <= |hay| {
          AsciiLowerSlice(hay, i, i + |needle|);
          assert !OccursAt(AsciiLower(hay), AsciiLower(needle), i);
        }
      }
    } else {
      forall i ensures !OccursAtIgnoringCase(hay, needle, i) {
        if 0 <= i && i + |needle| <= |hay| {
          AsciiLowerSlice(hay, i, i + |needle|);
          assert !OccursAt(AsciiLower(hay), AsciiLower(needle), i);
        }
      }
    }
  }
}
