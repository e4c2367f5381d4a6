/**
 * Cutting the dump into chunks: `file.split("End Email")` followed by
 * `[:-1]`, which drops whatever follows the last marker.
 */
module Split {
  import opened Text

  const END_MARKER: string := "End Email"

  /** `str.split(END_MARKER)` applied to `s[from..]`: scan for the leftmost marker, cut, continue after it. */
  function SplitFrom(s: string, from: nat): (pieces: seq<string>)
    requires from <= |s|
    ensures |pieces| >= 1
    decreases |s| - from
  {
    match IndexOf(s, END_MARKER, from)
    case None => [s[from..]]
    case Some(i) => [s[from..i]] + SplitFrom(s, i + |END_MARKER|)
  }

  /**
   * The list the source calls `split_file` before slicing: marker-free
   * pieces, one more than there are markers, that join back to the text.
   */
  function SplitAll(s: string): (pieces: seq<string>)
    ensures |pieces| == DelimiterCount(s) + 1
    ensures JoinWith(pieces, END_MARKER) == s
    ensures forall k :: 0 <= k < |pieces| ==> !Contains(pieces[k], END_MARKER)
  {
    SplitCount(s, 0);
    SplitJoin(s, 0);
    SplitPiecesFree(s, 0);
    SplitFrom(s, 0)
  }

  /** `split_file[:-1]`: every piece that a marker terminates, as many as there are markers. */
  function Chunks(file: string): (chunks: seq<string>)
    ensures |chunks| == DelimiterCount(file)
    ensures forall k :: 0 <= k < |chunks| ==> !Contains(chunks[k], END_MARKER)
  {
    var pieces := SplitAll(file);
    pieces[..|pieces| - 1]
  }

  /** The discarded last piece: the text after the last marker (all of the file when there is none). */
  function Remainder(file: string): (rest: string)
    ensures !Contains(rest, END_MARKER)
  {
    var pieces := SplitAll(file);
    pieces[|pieces| - 1]
  }

  /** `sep.join(pieces)`. */
  function JoinWith(pieces: seq<string>, sep: string): string
    decreases |pieces|
  {
    if |pieces| == 0 then ""
    else if |pieces| == 1 then pieces[0]
    else pieces[0] + sep + JoinWith(pieces[1..], sep)
  }

  /** Every chunk followed by its marker: the text the chunks were cut from. */
  function Terminated(chunks: seq<string>): string
    decreases |chunks|
  {
    if chunks == [] then "" else chunks[0] + END_MARKER + Terminated(chunks[1..])
  }

  /** Number of positions at or after `from` where the marker begins. */
  function CountFrom(s: string, from: nat): nat
    requires from <= |s|
    decreases |s| - from
  {
    if from == |s| then 0
    else (if OccursAt(s, END_MARKER, from) then 1 else 0) + CountFrom(s, from + 1)
  }

  /** Number of times the marker occurs in the file: zero exactly when it does not occur. */
  function DelimiterCount(file: string): (n: nat)
    ensures n == 0 <==> !Contains(file, END_MARKER)
  {
    CountZero(file);
    CountFrom(file, 0)
  }

  /** An occurrence at or after `from` is counted. */
  lemma {:induction false} CountPositive(s: string, from: nat, i: nat)
    requires from <= i && OccursAt(s, END_MARKER, i)
    ensures CountFrom(s, from) >= 1
    decreases i - from
  {
    if from < i {
      CountPositive(s, from + 1, i);
    }
  }

  /** The count from the start is zero exactly when the marker does not occur. */
  lemma CountZero(s: string)
    ensures CountFrom(s, 0) == 0 <==> !Contains(s, END_MARKER)
  {
    if Contains(s, END_MARKER) {
      var i: nat :| i <= |s| && OccursAt(s, END_MARKER, i);
      CountPositive(s, 0, i);
    } else {
      CountNone(s, 0);
    }
  }

  /** The marker has no proper border, so two of its occurrences can never overlap. */
  lemma MarkerSelfDisjoint(s: string, j: nat, k: nat)
    requires j < k < j + |END_MARKER|
    ensures !(OccursAt(s, END_MARKER, j) && OccursAt(s, END_MARKER, k))
  {
    var n := |END_MARKER|;
    if OccursAt(s, END_MARKER, j) && k + n <= |s| {
      var d := k - j;
      assert s[k] == s[j..j + n][d] == END_MARKER[d];
      if d == 4 {
        assert s[k + 1] == s[j..j + n][5] == 'm';
        assert s[k..k + n][1] != END_MARKER[1];
      } else {
        assert s[k..k + n][0] != END_MARKER[0];
      }
    }
  }

  /** Skipping positions where the marker does not begin leaves the count unchanged. */
  lemma {:induction false} CountSkip(s: string, from: nat, to: nat)
    requires from <= to <= |s|
    requires forall j: nat :: from <= j < to ==> !OccursAt(s, END_MARKER, j)
    ensures CountFrom(s, from) == CountFrom(s, to)
    decreases |s| - from
  {
    if from < to {
      CountSkip(s, from + 1, to);
    }
  }

  lemma {:induction false} CountNone(s: string, from: nat)
    requires from <= |s|
    requires forall j: nat :: from <= j ==> !OccursAt(s, END_MARKER, j)
    ensures CountFrom(s, from) == 0
  {
    CountSkip(s, from, |s|);
  }

  /** `split` yields one piece more than there are markers. */
  lemma {:induction false} SplitCount(s: string, from: nat)
    requires from <= |s|
    ensures |SplitFrom(s, from)| == CountFrom(s, from) + 1
    decreases |s| - from
  {
    match IndexOf(s, END_MARKER, from)
    case None =>
      CountNone(s, from);
    case Some(i) =>
      var n := |END_MARKER|;
      CountSkip(s, from, i);
      forall j: nat | i + 1 <= j < i + n
        ensures !OccursAt(s, END_MARKER, j)
      {
        MarkerSelfDisjoint(s, i, j);
      }
      CountSkip(s, i + 1, i + n);
      SplitCount(s, i + n);
  }

  /** No piece of the split contains the marker. */
  lemma {:induction false} SplitPiecesFree(s: string, from: nat)
    requires from <= |s|
    ensures forall k :: 0 <= k < |SplitFrom(s, from)| ==> !Contains(SplitFrom(s, from)[k], END_MARKER)
    decreases |s| - from
  {
    var pieces := SplitFrom(s, from);
    match IndexOf(s, END_MARKER, from)
    case None =>
      var p := s[from..];
      forall j: nat | j <= |p| ensures !OccursAt(p, END_MARKER, j) {
        OccursInSlice(s, END_MARKER, from, |s|, j);
      }
    case Some(i) =>
      var p := s[from..i];
      forall j: nat | j <= |p| ensures !OccursAt(p, END_MARKER, j) {
        OccursInSlice(s, END_MARKER, from, i, j);
      }
      SplitPiecesFree(s, i + |END_MARKER|);
      assert pieces == [p] + SplitFrom(s, i + |END_MARKER|);
  }

  /** Text around a marker occurrence is the part before it, the marker, and the part after it. */
  lemma CutAtMarker(s: string, from: nat, i: nat)
    requires from <= i && OccursAt(s, END_MARKER, i)
    ensures s[from..] == s[from..i] + END_MARKER + s[i + |END_MARKER|..]
  {
    assert s[from..] == s[from..i] + s[i..i + |END_MARKER|] + s[i + |END_MARKER|..];
  }

  /** Joining the pieces with the marker gives back the text they were cut from. */
  lemma {:induction false} SplitJoin(s: string, from: nat)
    requires from <= |s|
    ensures JoinWith(SplitFrom(s, from), END_MARKER) == s[from..]
    decreases |s| - from
  {
    match IndexOf(s, END_MARKER, from)
    case None =>
    case Some(i) =>
      var n := |END_MARKER|;
      var rest := SplitFrom(s, i + n);
      var pieces := [s[from..i]] + rest;
      SplitJoin(s, i + n);
      assert SplitFrom(s, from) == pieces;
      assert pieces[1..] == rest;
      assert JoinWith(pieces, END_MARKER) == s[from..i] + END_MARKER + s[i + n..];
      CutAtMarker(s, from, i);
  }

  /** A marker-free tail holds no marker, so the scan from its start finds none. */
  lemma {:induction false} NoMarkerInTail(s: string, from: nat)
    requires from <= |s|
    requires !Contains(s[from..], END_MARKER)
    ensures IndexOf(s, END_MARKER, from).None?
  {
    assert s[from..] == s[from..|s|];
    forall j: nat | from <= j ensures !OccursAt(s, END_MARKER, j) {
      OccursInSlice(s, END_MARKER, from, |s|, j - from);
    }
  }

  /** After a marker-free piece, the scan stops at the marker that follows it. */
  lemma {:induction false} MarkerAfterPiece(s: string, from: nat, p: string, rest: string)
    requires from <= |s|
    requires s[from..] == p + END_MARKER + rest
    requires !Contains(p, END_MARKER)
    ensures from + |p| + |END_MARKER| <= |s|
    ensures IndexOf(s, END_MARKER, from) == Some(from + |p|)
    ensures s[from..from + |p|] == p
    ensures s[from + |p| + |END_MARKER|..] == rest
  {
    var n := |END_MARKER|;
    var at := from + |p|;
    assert s[at..at + n] == (p + END_MARKER + rest)[|p|..|p| + n];
    assert OccursAt(s, END_MARKER, at);
    assert s[from..at] == p;
    forall j: nat | from <= j < at ensures !OccursAt(s, END_MARKER, j) {
      if j + n <= at {
        OccursInSlice(s, END_MARKER, from, at, j - from);
      } else {
        MarkerSelfDisjoint(s, j, at);
      }
    }
  }

  /**
   * The split is the only way to cut `s[from..]` into marker-free pieces
   * separated by markers.
   */
  lemma {:induction false} SplitUnique(s: string, from: nat, pieces: seq<string>)
    requires from <= |s| && |pieces| >= 1
    requires s[from..] == JoinWith(pieces, END_MARKER)
    requires forall k :: 0 <= k < |pieces| ==> !Contains(pieces[k], END_MARKER)
    ensures SplitFrom(s, from) == pieces
    decreases |pieces|
  {
    if |pieces| == 1 {
      NoMarkerInTail(s, from);
    } else {
      var rest := JoinWith(pieces[1..], END_MARKER);
      var next := from + |pieces[0]| + |END_MARKER|;
      MarkerAfterPiece(s, from, pieces[0], rest);
      SplitUnique(s, next, pieces[1..]);
      assert SplitFrom(s, from) == [pieces[0]] + SplitFrom(s, next);
    }
  }

  /** Joined pieces are the terminated prefix followed by the last piece. */
  lemma {:induction false} JoinAsTerminated(pieces: seq<string>)
    requires |pieces| >= 1
    ensures JoinWith(pieces, END_MARKER) == Terminated(pieces[..|pieces| - 1]) + pieces[|pieces| - 1]
    decreases |pieces|
  {
    if |pieces| > 1 {
      JoinAsTerminated(pieces[1..]);
      assert pieces[1..][..|pieces| - 2] == pieces[..|pieces| - 1][1..];
    }
  }

  /**
   * Round trip of `split` and `[:-1]`: every chunk followed by the marker,
   * and then the discarded remainder, is the file again; neither a chunk
   * nor the remainder contains the marker.
   */
  lemma ChunksRoundTrip(file: string)
    ensures Terminated(Chunks(file)) + Remainder(file) == file
    ensures forall k :: 0 <= k < |Chunks(file)| ==> !Contains(Chunks(file)[k], END_MARKER)
    ensures !Contains(Remainder(file), END_MARKER)
  {
    JoinAsTerminated(SplitAll(file));
  }

  /** As many chunks as the marker occurs; in particular none without a marker. */
  lemma ChunkCount(file: string)
    ensures |Chunks(file)| == DelimiterCount(file)
    ensures !Contains(file, END_MARKER) ==> Chunks(file) == []
  {
  }

  /**
   * Cutting marker-terminated chunks followed by marker-free trailing text
   * gives back exactly those chunks: the trailing text never becomes a
   * chunk, whether it is empty or not.
   */
  lemma TrailingTextIgnored(chunks: seq<string>, trailing: string)
    requires forall k :: 0 <= k < |chunks| ==> !Contains(chunks[k], END_MARKER)
    requires !Contains(trailing, END_MARKER)
    ensures Chunks(Terminated(chunks) + trailing) == chunks
    ensures Remainder(Terminated(chunks) + trailing) == trailing
  {
    var pieces := chunks + [trailing];
    var s := Terminated(chunks) + trailing;
    JoinAsTerminated(pieces);
    assert pieces[..|pieces| - 1] == chunks;
    assert s[0..] == s;
    SplitUnique(s, 0, pieces);
  }
}
