/** Character-level string operations: Ruby 1.8 whitespace, trimming and marker removal. */
module Text {
  import opened Seqs

  /** Ruby 1.8's `\s` class: space, tab, line feed, carriage return, form feed. */
  predicate IsSpace(c: char) {
    c == ' ' || c == '\t' || c == '\n' || c == '\r' || c == '\U{000C}'
  }

  /** `s[lo..hi]` consists of whitespace only. */
  predicate SpacesIn(s: string, lo: int, hi: int) {
    forall k :: lo <= k < hi && 0 <= k < |s| ==> IsSpace(s[k])
  }

  /** Drops leading whitespace. */
  function TrimLeft(s: string): (r: string)
    ensures |r| <= |s| && r == s[|s| - |r|..]
    ensures SpacesIn(s, 0, |s| - |r|)
    ensures |r| > 0 ==> !IsSpace(r[0])
  {
    if |s| > 0 && IsSpace(s[0]) then TrimLeft(s[1..]) else s
  }

  /** Drops trailing whitespace. */
  function TrimRight(s: string): (r: string)
    ensures |r| <= |s| && r == s[..|r|]
    ensures SpacesIn(s, |r|, |s|)
    ensures |r| > 0 ==> !IsSpace(r[|r| - 1])
  {
    if |s| > 0 && IsSpace(s[|s| - 1]) then TrimRight(s[..|s| - 1]) else s
  }

  /** Drops leading and trailing whitespace; the result neither starts nor ends with it. */
  function Trim(s: string): (r: string)
    ensures |r| <= |s|
    ensures |r| > 0 ==> !IsSpace(r[0]) && !IsSpace(r[|r| - 1])
  {
    TrimRight(TrimLeft(s))
  }

  /** The trimmed string is the slice of `s` between two whitespace-only ends. */
  lemma TrimIsSlice(s: string)
    ensures exists i :: && 0 <= i <= |s| - |Trim(s)|
                        && Trim(s) == s[i..i + |Trim(s)|]
                        && SpacesIn(s, 0, i) && SpacesIn(s, i + |Trim(s)|, |s|)
  {
    var i := TrimSliceAt(s);
  }

  /** The position where the trimmed text starts inside `s`. */
  lemma TrimSliceAt(s: string) returns (i: int)
    ensures 0 <= i <= |s| - |Trim(s)|
    ensures Trim(s) == s[i..i + |Trim(s)|]
    ensures SpacesIn(s, 0, i) && SpacesIn(s, i + |Trim(s)|, |s|)
  {
    var left := TrimLeft(s);
    var r := TrimRight(left);
    assert Trim(s) == r;
    i := |s| - |left|;
    SliceOfSuffix(s, left, r);
  }

  /** A prefix `r` of a suffix `left` of `s`, with whitespace after it in `left`, is a
      slice of `s` with whitespace after it in `s`. */
  lemma SliceOfSuffix(s: string, left: string, r: string)
    requires |left| <= |s| && left == s[|s| - |left|..]
    requires |r| <= |left| && r == left[..|r|]
    requires SpacesIn(left, |r|, |left|)
    ensures var i := |s| - |left|;
            r == s[i..i + |r|] && SpacesIn(s, i + |r|, |s|)
  {
    var i := |s| - |left|;
    calc {
      r;
      left[..|r|];
      s[i..][..|r|];
      s[i..i + |r|];
    }
    SpacesInFromSuffix(s, i, |r|, |left|);
  }

  /** Whitespace in `s[d..][lo..hi]` is whitespace in `s[d + lo..d + hi]`. */
  lemma SpacesInFromSuffix(s: string, d: int, lo: int, hi: int)
    requires 0 <= d <= |s| && 0 <= lo && hi + d <= |s|
    requires SpacesIn(s[d..], lo, hi)
    ensures SpacesIn(s, d + lo, d + hi)
  {
    forall k | d + lo <= k < d + hi && 0 <= k < |s| ensures IsSpace(s[k]) {
      assert s[d..][k - d] == s[k];
    }
  }

  /** Leading whitespace before a non-space character is exactly what TrimLeft drops. */
  lemma {:induction false} TrimLeftAt(s: string, i: int)
    requires 0 <= i < |s| && SpacesIn(s, 0, i) && !IsSpace(s[i])
    ensures TrimLeft(s) == s[i..]
  {
    if i > 0 {
      var t := s[1..];
      assert IsSpace(s[0]);
      assert TrimLeft(s) == TrimLeft(t);
      assert SpacesIn(t, 0, i - 1) by {
        forall k | 0 <= k < i - 1 ensures IsSpace(t[k]) {
          assert t[k] == s[k + 1];
        }
      }
      assert t[i - 1] == s[i];
      TrimLeftAt(t, i - 1);
      assert t[i - 1..] == s[i..];
    }
  }

  /** Trailing whitespace after a non-space character is exactly what TrimRight drops. */
  lemma {:induction false} TrimRightAt(s: string, j: int)
    requires 0 < j <= |s| && SpacesIn(s, j, |s|) && !IsSpace(s[j - 1])
    ensures TrimRight(s) == s[..j]
  {
    if j < |s| {
      assert IsSpace(s[|s| - 1]);
      var t := s[..|s| - 1];
      assert forall k :: j <= k < |t| ==> t[k] == s[k];
      TrimRightAt(t, j);
      assert t[..j] == s[..j];
    }
  }

  /** Whitespace in `s[d + lo..d + hi]` is whitespace in `s[d..][lo..hi]`. */
  lemma SpacesInSuffix(s: string, d: int, lo: int, hi: int)
    requires 0 <= d <= |s| && 0 <= lo && hi + d <= |s|
    requires SpacesIn(s, d + lo, d + hi)
    ensures SpacesIn(s[d..], lo, hi)
  {
    forall k | lo <= k < hi && 0 <= k < |s[d..]| ensures IsSpace(s[d..][k]) {
      assert s[d..][k] == s[d + k];
    }
  }

  /** Trim is determined by the first and last non-space positions. */
  lemma TrimBetween(s: string, i: int, j: int)
    requires 0 <= i < j <= |s|
    requires SpacesIn(s, 0, i) && SpacesIn(s, j, |s|)
    requires !IsSpace(s[i]) && !IsSpace(s[j - 1])
    ensures Trim(s) == s[i..j]
  {
    var left := s[i..];
    SpacesInSuffix(s, i, j - i, |s| - i);
    assert left[j - i - 1] == s[j - 1];
    calc {
      Trim(s);
      TrimRight(TrimLeft(s));
      { TrimLeftAt(s, i); }
      TrimRight(left);
      { TrimRightAt(left, j - i); }
      left[..j - i];
      s[i..j];
    }
  }

  /** The Textile header decoration `_.`. */
  predicate MarkerAt(s: string, i: int)
    requires 0 <= i
  {
    i + 1 < |s| && s[i] == '_' && s[i + 1] == '.'
  }

  /** `s` contains the two characters `_.` next to each other. */
  predicate HasMarker(s: string) {
    exists i :: 0 <= i < |s| && MarkerAt(s, i)
  }

  /** Dropping a first character at which no marker starts neither adds nor removes markers. */
  lemma {:induction false} HasMarkerTail(s: string)
    requires |s| > 0 && !MarkerAt(s, 0)
    ensures HasMarker(s) <==> HasMarker(s[1..])
  {
    if HasMarker(s) {
      var i :| 0 <= i < |s| && MarkerAt(s, i);
      assert MarkerAt(s[1..], i - 1);
    }
    if HasMarker(s[1..]) {
      var j :| 0 <= j < |s[1..]| && MarkerAt(s[1..], j);
      assert MarkerAt(s, j + 1);
    }
  }

  /** Ruby's `gsub(/_\./, '')`: one left-to-right pass deleting each `_.` found. Only
      underscores and dots are deleted; every other character survives, in order. */
  function RemoveMarkers(s: string): (r: string)
    ensures |r| <= |s|
    ensures |r| == |s| <==> !HasMarker(s)
    ensures IsSubseq(r, s)
    ensures forall c :: c != '_' && c != '.' ==> multiset(r)[c] == multiset(s)[c]
  {
    if |s| < 2 then
      assert !MarkerAt(s, 0);
      IsSubseqRefl(s);
      s
    else if s[0] == '_' && s[1] == '.' then
      assert MarkerAt(s, 0);
      var r := RemoveMarkers(s[2..]);
      assert s == [s[0]] + ([s[1]] + s[2..]);
      IsSubseqCons(r, s[1], s[2..]);
      IsSubseqCons(r, s[0], [s[1]] + s[2..]);
      r
    else
      HasMarkerTail(s);
      var rest := RemoveMarkers(s[1..]);
      var r := [s[0]] + rest;
      assert s == [s[0]] + s[1..];
      assert r[1..] == rest;
      r
  }

  /** A string without the marker is left unchanged, and one with it is changed. */
  lemma RemoveMarkersIdentity(s: string)
    ensures RemoveMarkers(s) == s <==> !HasMarker(s)
  {
    if !HasMarker(s) {
      NoMarkerUnchanged(s);
    }
  }

  lemma {:induction false} NoMarkerUnchanged(s: string)
    requires !HasMarker(s)
    ensures RemoveMarkers(s) == s
  {
    if |s| >= 2 {
      assert !MarkerAt(s, 0);
      assert forall i :: 0 <= i ==> MarkerAt(s[1..], i) == MarkerAt(s, i + 1);
      NoMarkerUnchanged(s[1..]);
    }
  }

  /** The first character survives removal when no marker starts there. */
  lemma RemoveMarkersHead(s: string)
    requires |s| > 0 && !MarkerAt(s, 0)
    ensures |RemoveMarkers(s)| > 0 && RemoveMarkers(s)[0] == s[0]
  {
  }

  /** `s` has an underscore directly before a marker (`__.`). */
  predicate HasDoubledUnderscore(s: string) {
    exists i :: 0 <= i < |s| - 2 && s[i] == '_' && MarkerAt(s, i + 1)
  }

  /** Dropping leading characters cannot create a `__.`. */
  lemma DoubledUnderscoreSuffix(s: string, k: int)
    requires 0 <= k <= |s| && HasDoubledUnderscore(s[k..])
    ensures HasDoubledUnderscore(s)
  {
    var i :| 0 <= i < |s[k..]| - 2 && s[k..][i] == '_' && MarkerAt(s[k..], i + 1);
    assert s[i + k] == '_' && MarkerAt(s, i + k + 1);
  }

  /** Unless an underscore directly precedes a marker, removal leaves no marker behind. */
  lemma {:induction false} RemoveMarkersLeavesNone(s: string)
    requires !HasDoubledUnderscore(s)
    ensures !HasMarker(RemoveMarkers(s))
  {
    if |s| < 2 {
    } else if s[0] == '_' && s[1] == '.' {
      if HasDoubledUnderscore(s[2..]) {
        DoubledUnderscoreSuffix(s, 2);
      }
      RemoveMarkersLeavesNone(s[2..]);
    } else {
      if HasDoubledUnderscore(s[1..]) {
        DoubledUnderscoreSuffix(s, 1);
      }
      RemoveMarkersLeavesNone(s[1..]);
      var rest := RemoveMarkers(s[1..]);
      var r := [s[0]] + rest;
      if |rest| > 0 && s[0] == '_' {
        // a marker at s[1] would make `__.` at s[0]
        assert !MarkerAt(s[1..], 0);
        RemoveMarkersHead(s[1..]);
      }
      assert !MarkerAt(r, 0);
      assert r[1..] == rest;
      HasMarkerTail(r);
    }
  }

  /** A single pass can recreate the marker: `__..` becomes `_.`. */
  lemma RemoveMarkersSinglePass()
    ensures RemoveMarkers("__..") == "_."
    ensures HasMarker(RemoveMarkers("__.."))
  {
    assert MarkerAt("_.", 0);
  }

  /** Ruby's `gsub(/\s/, "T")`: each whitespace character becomes a `T`. */
  function SpacesToT(s: string): (r: string)
    ensures |r| == |s|
    ensures forall i :: 0 <= i < |r| ==> !IsSpace(r[i])
    ensures forall i :: 0 <= i < |s| && !IsSpace(s[i]) ==> r[i] == s[i]
  {
    seq(|s|, i requires 0 <= i < |s| => if IsSpace(s[i]) then 'T' else s[i])
  }
}
