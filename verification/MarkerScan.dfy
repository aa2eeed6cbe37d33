/**
 Finding a marker in a stream that arrives in pieces.  A pattern is a sequence of byte classes whose
 first class meets none of the others, as an escape sequence starting with ESC is.
 */
module MarkerScan {
  import opened Bytes
  import opened Wrappers

  type Pattern = seq<set<Byte>>

  function Literal(marker: seq<Byte>): (pattern: Pattern)
    ensures |pattern| == |marker|
    ensures forall k :: 0 <= k < |marker| ==> pattern[k] == {marker[k]}
  {
    seq(|marker|, k requires 0 <= k < |marker| => {marker[k]})
  }

  ghost predicate HeadOnly(pattern: Pattern) {
    |pattern| >= 2 && forall k :: 1 <= k < |pattern| ==> pattern[k] !! pattern[0]
  }

  /** The first `length` classes of the pattern match the data from a position on. */
  predicate Matches(data: seq<Byte>, pattern: Pattern, position: nat, length: nat)
    requires length <= |pattern|
    decreases length
  {
    && position + length <= |data|
    && (length == 0 ||
        (data[position + length - 1] in pattern[length - 1] && Matches(data, pattern, position, length - 1)))
  }

  predicate Occurs(data: seq<Byte>, pattern: Pattern, position: nat) {
    Matches(data, pattern, position, |pattern|)
  }

  ghost predicate Absent(data: seq<Byte>, pattern: Pattern) {
    forall k :: 0 <= k <= |data| ==> !Occurs(data, pattern, k)
  }

  /** bytes.find: the first occurrence at or after a position. */
  function Find(data: seq<Byte>, pattern: Pattern, position: nat): (found: Option<nat>)
    ensures found.Some? ==> position <= found.value && found.value + |pattern| <= |data|
    decreases |data| - position
  {
    if position + |pattern| > |data| then None
    else if Occurs(data, pattern, position) then Some(position)
    else if position == |data| then None
    else Find(data, pattern, position + 1)
  }

  lemma {:induction false} FindIsFirst(data: seq<Byte>, pattern: Pattern, position: nat)
    ensures var found := Find(data, pattern, position);
            if found.Some? then Occurs(data, pattern, found.value)
                                && forall k :: position <= k < found.value ==> !Occurs(data, pattern, k)
            else forall k :: position <= k <= |data| ==> !Occurs(data, pattern, k)
    decreases |data| - position
  {
    if position + |pattern| <= |data| && !Occurs(data, pattern, position) && position < |data| {
      FindIsFirst(data, pattern, position + 1);
    }
  }

  predicate EndsInPart(data: seq<Byte>, pattern: Pattern, length: nat) {
    length < |pattern| && length <= |data| && Matches(data, pattern, |data| - length, length)
  }

  /** How much of a marker may have begun at the end of the data: the longest such part. */
  method PartialLength(data: seq<Byte>, pattern: Pattern) returns (partial: nat)
    requires pattern != []
    ensures EndsInPart(data, pattern, partial)
    ensures forall length :: 0 <= length < |pattern| && EndsInPart(data, pattern, length) ==> length <= partial
  {
    partial := 0;
    for length := 1 to |pattern|
      invariant EndsInPart(data, pattern, partial)
      invariant forall l :: 0 <= l < length && EndsInPart(data, pattern, l) ==> l <= partial
    {
      if EndsInPart(data, pattern, length) {
        partial := length;
      }
    }
  }

  // ---- the same, one byte at a time ----

  /** One more byte on top of the part of a marker held back: what is let go and what is held now. */
  function Absorb(pattern: Pattern, held: seq<Byte>, b: Byte): (seq<Byte>, seq<Byte>)
    requires pattern != []
  {
    if |held| < |pattern| && b in pattern[|held|] then ([], held + [b])
    else if b in pattern[0] then (held, [b])
    else (held + [b], [])
  }

  /** All of the data read byte by byte: what was let go and what is held back. */
  function Sift(pattern: Pattern, data: seq<Byte>): (r: (seq<Byte>, seq<Byte>))
    requires pattern != []
    ensures |r.0| + |r.1| == |data|
  {
    if data == [] then ([], [])
    else
      var (out, held) := Sift(pattern, data[..|data| - 1]);
      var (more, now) := Absorb(pattern, held, data[|data| - 1]);
      (out + more, now)
  }

  /** Holding back the longest part a marker may have begun with, and letting the rest go. */
  ghost predicate HoldsLongestPart(pattern: Pattern, data: seq<Byte>, out: seq<Byte>, held: seq<Byte>) {
    && out + held == data
    && EndsInPart(data, pattern, |held|)
    && forall length :: 0 <= length < |pattern| && EndsInPart(data, pattern, length) ==> length <= |held|
  }

  lemma {:induction false} MatchesEverywhere(data: seq<Byte>, pattern: Pattern, position: nat, length: nat)
    requires length <= |pattern|
    ensures Matches(data, pattern, position, length) <==>
            (position + length <= |data| &&
             forall k :: position <= k < position + length ==> data[k] in pattern[k - position])
    decreases length
  {
    if length > 0 {
      MatchesEverywhere(data, pattern, position, length - 1);
    }
  }

  /** Matching depends only on the bytes it looks at. */
  lemma {:induction false} MatchesMoved(data: seq<Byte>, from: nat, other: seq<Byte>, to: nat, pattern: Pattern, length: nat)
    requires length <= |pattern| && from + length <= |data| && to + length <= |other|
    requires forall k :: from <= k < from + length ==> data[k] == other[k - from + to]
    ensures Matches(data, pattern, from, length) <==> Matches(other, pattern, to, length)
    decreases length
  {
    if length > 0 {
      var k := from + length - 1;
      assert data[k] == other[k - from + to];
      MatchesMoved(data, from, other, to, pattern, length - 1);
    }
  }

  lemma {:induction false} PartsDoNotOverlap(data: seq<Byte>, pattern: Pattern, a: nat, b: nat)
    requires HeadOnly(pattern) && 0 < a < b <= |pattern|
    requires a <= |data| && Matches(data, pattern, |data| - a, a)
    ensures !(b <= |data| && Matches(data, pattern, |data| - b, b))
  {
    MatchesEverywhere(data, pattern, |data| - a, a);
    var first := |data| - a;
    assert data[first] in pattern[first - (|data| - a)];
    if b <= |data| {
      MatchesEverywhere(data, pattern, |data| - b, b);
      assert data[first] !in pattern[first - (|data| - b)];
    }
  }

  lemma {:induction false} PartGrows(data: seq<Byte>, pattern: Pattern, length: nat, b: Byte)
    requires length < |pattern|
    ensures var grown := data + [b];
            (length < |grown| && Matches(grown, pattern, |grown| - (length + 1), length + 1))
            <==> (EndsInPart(data, pattern, length) && b in pattern[length])
  {
    if length <= |data| {
      MatchesMoved(data + [b], |data| - length, data, |data| - length, pattern, length);
    }
  }

  lemma {:induction false} AbsentInPrefix(data: seq<Byte>, more: seq<Byte>, pattern: Pattern)
    requires forall k :: 0 <= k && k + |pattern| <= |data| ==> !Occurs(data + more, pattern, k)
    ensures Absent(data, pattern)
  {
    forall k | 0 <= k <= |data| ensures !Occurs(data, pattern, k) {
      if k + |pattern| <= |data| {
        OccursInPrefix(data, more, pattern, k);
        assert !Occurs(data + more, pattern, k);
      }
    }
  }

  /** An occurrence depends on nothing after it. */
  lemma {:induction false} OccursInPrefix(data: seq<Byte>, more: seq<Byte>, pattern: Pattern, k: nat)
    requires k + |pattern| <= |data|
    ensures Occurs(data + more, pattern, k) <==> Occurs(data, pattern, k)
  {
    MatchesMoved(data + more, k, data, k, pattern, |pattern|);
  }

  lemma {:induction false} NotYetWhole(pattern: Pattern, data: seq<Byte>, held: nat, b: Byte)
    requires held < |pattern| && EndsInPart(data, pattern, held) && b in pattern[held]
    requires Absent(data + [b], pattern)
    ensures held + 1 < |pattern|
  {
    PartGrows(data, pattern, held, b);
    var grown := data + [b];
    assert |grown| >= |pattern| ==> !Occurs(grown, pattern, |grown| - |pattern|);
  }

  lemma {:induction false} NothingLongerIsHeld(data: seq<Byte>, pattern: Pattern, held: nat, b: Byte, length: nat)
    requires HeadOnly(pattern) && EndsInPart(data, pattern, held)
    requires forall l :: 0 <= l < |pattern| && EndsInPart(data, pattern, l) ==> l <= held
    requires (if b in pattern[held] then held + 1 else if b in pattern[0] then 1 else 0) < length < |pattern|
    ensures !EndsInPart(data + [b], pattern, length)
  {
    PartGrows(data, pattern, length - 1, b);
    if 0 < length - 1 < held && EndsInPart(data, pattern, length - 1) {
      PartsDoNotOverlap(data, pattern, length - 1, held);
    }
  }

  lemma {:induction false} AbsorbHoldsLongestPart(pattern: Pattern, data: seq<Byte>, out: seq<Byte>, held: seq<Byte>, b: Byte)
    requires HeadOnly(pattern) && HoldsLongestPart(pattern, data, out, held) && Absent(data + [b], pattern)
    ensures var (more, now) := Absorb(pattern, held, b);
            HoldsLongestPart(pattern, data + [b], out + more, now)
  {
    var (more, now) := Absorb(pattern, held, b);
    var grown := data + [b];
    assert (out + more) + now == grown;
    PartGrows(data, pattern, |held|, b);
    PartGrows(data, pattern, 0, b);
    if b in pattern[|held|] {
      NotYetWhole(pattern, data, |held|, b);
    }
    forall length | 0 <= length < |pattern| && EndsInPart(grown, pattern, length) ensures length <= |now| {
      if length > |now| {
        NothingLongerIsHeld(data, pattern, |held|, b, length);
      }
    }
  }

  /** Reading byte by byte holds back exactly the longest part a marker may have begun with. */
  lemma {:induction false} SiftHoldsLongestPart(pattern: Pattern, data: seq<Byte>)
    requires HeadOnly(pattern) && Absent(data, pattern)
    ensures HoldsLongestPart(pattern, data, Sift(pattern, data).0, Sift(pattern, data).1)
  {
    if data == [] {
      assert [] + [] == data;
    } else {
      var init, last := data[..|data| - 1], data[|data| - 1];
      assert data == init + [last];
      AbsentInPrefix(init, [last], pattern);
      SiftHoldsLongestPart(pattern, init);
      AbsorbHoldsLongestPart(pattern, init, Sift(pattern, init).0, Sift(pattern, init).1, last);
    }
  }

  /** What is held back is by itself the beginning of a marker. */
  lemma {:induction false} HeldIsBeginning(pattern: Pattern, data: seq<Byte>, out: seq<Byte>, held: seq<Byte>)
    requires HoldsLongestPart(pattern, data, out, held)
    ensures EndsInPart(held, pattern, |held|)
  {
    MatchesMoved(data, |data| - |held|, held, 0, pattern, |held|);
  }

  /** Just before a first occurrence is complete, all of it but its last byte is held back. */
  lemma {:induction false} HeldBeforeOccurrence(before: seq<Byte>, marker: seq<Byte>, last: Byte, pattern: Pattern)
    requires HeadOnly(pattern) && |marker| + 1 == |pattern|
    requires Occurs(before + marker + [last], pattern, |before|)
    requires forall k :: 0 <= k < |before| ==> !Occurs(before + marker + [last], pattern, k)
    ensures last in pattern[|marker|]
    ensures Absent(before + marker, pattern)
    ensures Sift(pattern, before + marker) == (before, marker)
  {
    var init := before + marker;
    AbsentInPrefix(init, [last], pattern);
    SiftHoldsLongestPart(pattern, init);
    MatchesMoved(init + [last], |before|, init, |before|, pattern, |marker|);
    assert (init + [last])[|before| + |marker|] == last;
    assert EndsInPart(init, pattern, |marker|);
    var (out, held) := Sift(pattern, init);
    assert |held| == |marker|;
    assert out == (out + held)[..|out|] && held == (out + held)[|out|..];
    assert before == init[..|before|] && marker == init[|before|..];
  }
}
