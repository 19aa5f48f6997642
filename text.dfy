/** The two PHP string built-ins the endpoint resolver relies on, restricted
    to ASCII: `stristr` (case-insensitive substring search) and
    `rtrim($s, ' /')` (strip trailing spaces and slashes). */
module Text {
  import opened Base

  /** ASCII lower-casing, as PHP's case-insensitive comparisons do it. */
  function Lower(c: char): char
  {
    if 'A' <= c <= 'Z' then (c as int + 32) as char else c
  }

  /** `needle` occurs in `hay` at position `i`, ignoring ASCII case. */
  predicate MatchAt(hay: string, needle: string, i: nat)
  {
    i + |needle| <= |hay| &&
    forall k :: 0 <= k < |needle| ==> Lower(hay[i + k]) == Lower(needle[k])
  }

  /** The first case-insensitive occurrence of `needle` at or after `start`. */
  function FindFrom(hay: string, needle: string, start: nat): (r: Option<nat>)
    ensures r.Some? ==> start <= r.value && MatchAt(hay, needle, r.value)
    ensures r.Some? ==> forall j :: start <= j < r.value ==> !MatchAt(hay, needle, j)
    ensures r.None? ==> forall j :: start <= j ==> !MatchAt(hay, needle, j)
    decreases |hay| - start
  {
    if start + |needle| > |hay| then None
    else if MatchAt(hay, needle, start) then Some(start)
    else FindFrom(hay, needle, start + 1)
  }

  /** `stristr(hay, needle)`: the position of the first case-insensitive
      occurrence, `None` where PHP returns `false`. */
  function Find(hay: string, needle: string): Option<nat>
  {
    FindFrom(hay, needle, 0)
  }

  /** `stristr(hay, needle) !== false`. */
  predicate Contains(hay: string, needle: string)
  {
    Find(hay, needle).Some?
  }

  lemma ContainsIff(hay: string, needle: string)
    ensures Contains(hay, needle) <==> exists i :: MatchAt(hay, needle, i)
  {
    if Contains(hay, needle) {
      assert MatchAt(hay, needle, Find(hay, needle).value);
    }
  }

  /** One differing character rules an occurrence out. */
  lemma Mismatch(hay: string, needle: string, i: nat, k: nat)
    requires k < |needle| && i + k < |hay|
    requires Lower(hay[i + k]) != Lower(needle[k])
    ensures !MatchAt(hay, needle, i)
  {
  }

  lemma MatchInPrefix(hay: string, tail: string, needle: string, i: nat)
    requires MatchAt(hay, needle, i)
    ensures MatchAt(hay + tail, needle, i)
  {
    forall k | 0 <= k < |needle|
      ensures Lower((hay + tail)[i + k]) == Lower(needle[k])
    {
      assert (hay + tail)[i + k] == hay[i + k];
    }
  }

  lemma MatchInSuffix(head: string, hay: string, needle: string, i: nat)
    requires MatchAt(hay, needle, i)
    ensures MatchAt(head + hay, needle, |head| + i)
  {
    forall k | 0 <= k < |needle|
      ensures Lower((head + hay)[|head| + i + k]) == Lower(needle[k])
    {
      assert (head + hay)[|head| + i + k] == hay[i + k];
    }
  }

  /** Containment survives text added on either side. */
  lemma ContainsExtended(head: string, hay: string, tail: string, needle: string)
    requires Contains(hay, needle)
    ensures Contains(head + hay + tail, needle)
  {
    var i := Find(hay, needle).value;
    MatchInSuffix(head, hay, needle, i);
    MatchInPrefix(head + hay, tail, needle, |head| + i);
    ContainsIff(head + hay + tail, needle);
  }

  /** A string contains itself. */
  lemma ContainsSelf(s: string)
    ensures Contains(s, s)
  {
    assert MatchAt(s, s, 0);
    ContainsIff(s, s);
  }

  /** The characters of `rtrim`'s character list `' /'`. */
  predicate IsTrimChar(c: char)
  {
    c == ' ' || c == '/'
  }

  /** `rtrim(s, ' /')`: the longest prefix of `s` that does not end in a
      space or a slash; everything cut off is spaces and slashes. */
  function TrimRight(s: string): (r: string)
    ensures r <= s
    ensures r == [] || !IsTrimChar(r[|r| - 1])
    ensures forall k :: |r| <= k < |s| ==> IsTrimChar(s[k])
    decreases |s|
  {
    if |s| > 0 && IsTrimChar(s[|s| - 1]) then TrimRight(s[..|s| - 1]) else s
  }

  /** The contract of `TrimRight` determines it: trimming `core + pad`, where
      `core` does not end in a trim character and `pad` consists of trim
      characters only, gives back `core`. */
  lemma {:induction false} TrimRightUnique(core: string, pad: string)
    requires core == [] || !IsTrimChar(core[|core| - 1])
    requires forall k :: 0 <= k < |pad| ==> IsTrimChar(pad[k])
    ensures TrimRight(core + pad) == core
    decreases |pad|
  {
    if pad == [] {
      assert core + pad == core;
    } else {
      var s := core + pad;
      assert s[..|s| - 1] == core + pad[..|pad| - 1];
      TrimRightUnique(core, pad[..|pad| - 1]);
    }
  }

  /** Appending any run of spaces and slashes does not change `rtrim`'s
      result. */
  lemma TrimRightAbsorbsPadding(s: string, pad: string)
    requires forall k :: 0 <= k < |pad| ==> IsTrimChar(pad[k])
    ensures TrimRight(s + pad) == TrimRight(s)
  {
    var core := TrimRight(s);
    var cut := s[|core|..];
    assert s == core + cut;
    assert s + pad == core + (cut + pad);
    TrimRightUnique(core, cut + pad);
  }

  /** `rtrim` leaves a string that does not end in a trim character as is. */
  lemma TrimRightKeeps(s: string)
    requires s == [] || !IsTrimChar(s[|s| - 1])
    ensures TrimRight(s) == s
  {
    assert s + [] == s;
    TrimRightUnique(s, []);
  }

  /** A needle free of trim characters that occurs in `s` already occurs in
      `rtrim(s)`: trimming never breaks such an occurrence. */
  lemma TrimRightKeepsOccurrence(s: string, needle: string)
    requires forall k :: 0 <= k < |needle| ==> !IsTrimChar(Lower(needle[k]))
    requires Contains(s, needle)
    ensures Contains(TrimRight(s), needle)
  {
    var t := TrimRight(s);
    var i := Find(s, needle).value;
    if |needle| > 0 {
      var k := |needle| - 1;
      assert Lower(s[i + k]) == Lower(needle[k]);
      assert !IsTrimChar(s[i + k]);
      assert i + k < |t|;
    }
    assert MatchAt(t, needle, i) by {
      forall k | 0 <= k < |needle|
        ensures Lower(t[i + k]) == Lower(needle[k])
      {
        assert t[i + k] == s[i + k];
      }
    }
    ContainsIff(t, needle);
  }
}
