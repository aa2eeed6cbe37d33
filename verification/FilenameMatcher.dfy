/**
 Fuzzy matching of file names: a pigeonhole filter on pieces of the query runs before the distance
 table, and must lose nothing the table would have found.
 */
module FilenameMatching {
  import opened Wrappers
  import opened EditScripts
  import opened EditDistance

  predicate Contains(piece: string, name: string) {
    exists k :: 0 <= k <= |name| && piece <= name[k..]
  }

  function EditBudget(length: nat): nat {
    if length < 4 then 0
    else if length <= 7 then 1
    else if length <= 12 then 2
    else 3
  }

  function NonEmpty(pieces: seq<string>): seq<string> {
    if pieces == [] then []
    else (if pieces[0] == "" then [] else [pieces[0]]) + NonEmpty(pieces[1..])
  }

  /** Every piece but the last has the same size; the last takes what is left over. */
  function Cut(query: string, count: nat): seq<string>
    requires count > 0
  {
    var size := |query| / count;
    CutBy(query, size, count)
  }

  function CutBy(query: string, size: nat, count: nat): (pieces: seq<string>)
    requires count > 0 && (count - 1) * size <= |query|
    ensures |pieces| == count
  {
    seq(count - 1, index requires 0 <= index < count - 1 =>
          (SliceInside(index, size, count); query[index * size..(index + 1) * size]))
    + [query[(count - 1) * size..]]
  }

  lemma {:induction false} SliceInside(index: nat, size: nat, count: nat)
    requires index + 1 < count
    ensures 0 <= index * size <= (index + 1) * size <= (count - 1) * size
  {
    var before, after := index + 1, count - 2 - index;
  }

  /** `lower` stands for Python's str.lower, which nothing here depends on. */
  datatype FilenameMatcher = FilenameMatcher(caseSensitive: bool, query: string, budget: nat, pieces: seq<string>) {

    static function For(typed: string, caseSensitive: bool, lower: string -> string): (matcher: FilenameMatcher)
      ensures matcher.Valid() && matcher.caseSensitive == caseSensitive
      ensures matcher.query == if caseSensitive then typed else lower(typed)
      ensures matcher.budget <= 3 && (matcher.budget <= 2 <==> |matcher.query| <= 12)
      ensures (matcher.budget <= 1 <==> |matcher.query| <= 7) && (matcher.budget == 0 <==> |matcher.query| <= 3)
    {
      var query := if caseSensitive then typed else lower(typed);
      var budget := EditBudget(|query|);
      var pieces := Cut(query, 2 * budget + 1);
      FilenameMatcher(caseSensitive, query, budget, if budget == 0 then [] else NonEmpty(pieces))
    }

    /** What a matcher built by `For` always satisfies. */
    ghost predicate Valid() {
      && budget == EditBudget(|query|)
      && pieces == (if budget == 0 then [] else NonEmpty(Cut(query, 2 * budget + 1)))
    }

    /**
     The typos between the query and the closest stretch of the name.  For a query long enough to be
     given a budget, the filter and the early abort are invisible: a distance comes back exactly when
     the true one is within the budget, and it is the true one.
     */
    method FuzzyDistance(basename: string, lower: string -> string) returns (distance: Option<nat>)
      requires Valid()
      ensures budget == 0 ==> distance == None
      ensures distance.Some? ==>
                distance.value <= budget
                && IsClosest(query, if caseSensitive then basename else lower(basename), distance.value)
      ensures budget > 0 && distance.None? ==>
                NothingFitsBelow(query, if caseSensitive then basename else lower(basename), budget + 1)
    {
      var name := if caseSensitive then basename else lower(basename);
      if pieces == [] || name == "" {
        if budget > 0 {
          PiecesCoverQuery(query, budget);
          EmptyNameIsTooFar(query, name, budget);
        }
        return None;
      }
      if !exists piece | piece in pieces :: Contains(piece, name) {
        PieceFilterIsLossless(query, name, budget);
        return None;
      }
      distance := ClosestSubstringDistance(query, name, budget);
    }
  }

  // ---- the pigeonhole ----

  function Concat(pieces: seq<string>): string {
    if pieces == [] then "" else pieces[0] + Concat(pieces[1..])
  }

  ghost predicate SomePieceIn(pieces: seq<string>, text: string) {
    exists k :: 0 <= k < |pieces| && Contains(pieces[k], text)
  }

  lemma {:induction false} ContainsAfter(piece: string, head: string, text: string)
    requires Contains(piece, text)
    ensures Contains(piece, head + text)
  {
    var k :| 0 <= k <= |text| && piece <= text[k..];
    assert (head + text)[|head| + k..] == text[k..];
  }

  lemma {:induction false} SomePieceInLater(pieces: seq<string>, more: seq<string>, head: string, text: string)
    requires SomePieceIn(more, text) && exists d :: 0 <= d <= |pieces| && more == pieces[d..]
    ensures SomePieceIn(pieces, head + text)
  {
    var d :| 0 <= d <= |pieces| && more == pieces[d..];
    var k :| 0 <= k < |more| && Contains(more[k], text);
    ContainsAfter(more[k], head, text);
    assert pieces[d + k] == more[k];
  }

  /**
   The script still has `rest` of the current piece to read and then the whole pieces.  An edit spoils
   the piece it falls in, and a swap across a boundary the next one too, so with more pieces left
   unspoiled than twice the cost one of them comes through letter for letter.
   */
  lemma {:induction false} Pigeonhole(rest: string, intact: bool, pieces: seq<string>, script: Script)
    requires Source(script) == rest + Concat(pieces)
    requires forall k :: 0 <= k < |pieces| ==> pieces[k] != ""
    requires |pieces| + (if intact then 1 else 0) > 2 * Cost(script)
    ensures (intact && rest <= Target(script)) || SomePieceIn(pieces, Target(script))
    decreases |script|, |pieces|
  {
    if rest == "" {
      if !intact {
        var text := Target(script);
        assert Concat(pieces) == pieces[0] + Concat(pieces[1..]) == rest + Concat(pieces);
        Pigeonhole(pieces[0], true, pieces[1..], script);
        if pieces[0] <= text {
          assert text[0..] == text;
          assert Contains(pieces[0], text);
        } else {
          assert "" + text == text;
          SomePieceInLater(pieces, pieces[1..], "", text);
        }
      }
    } else {
      assert script != [];
      var edit, later := script[0], script[1..];
      var read := |edit.Source()|;
      if read <= |rest| {
        DropWithin(rest, Concat(pieces), read);
        Pigeonhole(rest[read..], intact && edit.Keep?, pieces, later);
        if SomePieceIn(pieces, Target(later)) {
          assert pieces == pieces[0..];
          SomePieceInLater(pieces, pieces, edit.Target(), Target(later));
        } else {
          assert rest == [rest[0]] + rest[1..];
        }
      } else {
        SwapReadsOn(rest, pieces, script);
        Pigeonhole(pieces[0][1..], false, pieces[1..], later);
        SomePieceInLater(pieces, pieces[1..], edit.Target(), Target(later));
      }
    }
  }

  lemma {:induction false} DropWithin(a: string, b: string, k: nat)
    requires k <= |a|
    ensures (a + b)[k..] == a[k..] + b && (a + b)[..k] == a[..k]
  {
  }

  /** A swap over the end of a piece reads one letter of the next. */
  lemma {:induction false} SwapReadsOn(rest: string, pieces: seq<string>, script: Script)
    requires script != [] && Source(script) == rest + Concat(pieces) && rest != ""
    requires |script[0].Source()| > |rest|
    requires forall k :: 0 <= k < |pieces| ==> pieces[k] != ""
    ensures script[0].Swap? && pieces != [] && Source(script[1..]) == pieces[0][1..] + Concat(pieces[1..])
  {
    assert |script[0].Source()| == 2 && |rest| == 1 && script[0].Swap?;
    var tail := Concat(pieces[1..]);
    assert pieces != [] && Concat(pieces) == pieces[0] + tail;
    assert (rest + (pieces[0] + tail))[2..] == pieces[0][1..] + tail;
  }

  lemma {:induction false} CutConcatenates(query: string, size: nat, count: nat, index: nat)
    requires index < count && (count - 1) * size <= |query|
    ensures index * size <= |query|
    ensures Concat(CutBy(query, size, count)[index..]) == query[index * size..]
    decreases count - index
  {
    var pieces := CutBy(query, size, count);
    if index == count - 1 {
      assert pieces[index..] == [query[(count - 1) * size..]];
      assert Concat(pieces[index..]) == pieces[index] + Concat([]);
    } else {
      SliceInside(index, size, count);
      CutConcatenates(query, size, count, index + 1);
      assert pieces[index..] == [pieces[index]] + pieces[index + 1..];
      assert query[index * size..] == query[index * size..(index + 1) * size] + query[(index + 1) * size..];
    }
  }

  lemma {:induction false} NonEmptyKeepsAll(pieces: seq<string>)
    requires forall k :: 0 <= k < |pieces| ==> pieces[k] != ""
    ensures NonEmpty(pieces) == pieces
  {
    if pieces != [] {
      NonEmptyKeepsAll(pieces[1..]);
    }
  }

  /** A query with a budget is long enough that no piece is empty, and the pieces spell it out. */
  lemma {:induction false} PiecesCoverQuery(query: string, budget: nat)
    requires 0 < budget == EditBudget(|query|)
    ensures budget < |query|
    ensures var pieces := NonEmpty(Cut(query, 2 * budget + 1));
            |pieces| == 2 * budget + 1 && Concat(pieces) == query
            && forall k :: 0 <= k < |pieces| ==> pieces[k] != ""
  {
    var count := 2 * budget + 1;
    var size := |query| / count;
    assert size >= 1 && count * size <= |query|;
    var pieces := Cut(query, count);
    forall k | 0 <= k < count ensures pieces[k] != "" {
      if k < count - 1 {
        SliceInside(k, size, count);
        assert pieces[k] == query[k * size..(k + 1) * size];
        assert (k + 1) * size == k * size + size;
      } else {
        assert count * size == (count - 1) * size + size;
      }
    }
    NonEmptyKeepsAll(pieces);
    CutConcatenates(query, size, count, 0);
    assert pieces[0..] == pieces && query[0..] == query;
  }

  lemma {:induction false} TargetInsideHaystack(piece: string, haystack: string, start: nat, end: nat)
    requires start <= end <= |haystack| && Contains(piece, haystack[start..end])
    ensures Contains(piece, haystack)
  {
    var k :| 0 <= k <= end - start && piece <= haystack[start..end][k..];
    assert piece <= haystack[start + k..];
  }

  /** The filter is lossless: a name holding none of the pieces has no stretch within the budget. */
  lemma {:induction false} PieceFilterIsLossless(query: string, name: string, budget: nat)
    requires 0 < budget == EditBudget(|query|)
    requires forall piece | piece in NonEmpty(Cut(query, 2 * budget + 1)) :: !Contains(piece, name)
    ensures NothingFitsBelow(query, name, budget + 1)
  {
    var pieces := NonEmpty(Cut(query, 2 * budget + 1));
    PiecesCoverQuery(query, budget);
    forall script, start, end | Fits(script, query, name, start, end)
      ensures budget + 1 <= Cost(script)
    {
      if Cost(script) <= budget {
        assert "" + Concat(pieces) == query;
        Pigeonhole("", false, pieces, script);
        var k :| 0 <= k < |pieces| && Contains(pieces[k], Target(script));
        TargetInsideHaystack(pieces[k], name, start, end);
        assert false;
      }
    }
  }

  lemma {:induction false} SourceOutlivesTarget(script: Script)
    ensures |Source(script)| <= |Target(script)| + Cost(script)
  {
    if script != [] {
      SourceOutlivesTarget(script[1..]);
    }
  }

  lemma {:induction false} EmptyNameIsTooFar(query: string, name: string, budget: nat)
    requires budget < |query| && name == ""
    ensures NothingFitsBelow(query, name, budget + 1)
  {
    forall script, start, end | Fits(script, query, name, start, end)
      ensures budget + 1 <= Cost(script)
    {
      SourceOutlivesTarget(script);
    }
  }

  // ---- literal and fuzzy agree at distance zero ----

  lemma {:induction false} FreeScriptCopies(script: Script)
    requires Cost(script) == 0
    ensures Source(script) == Target(script)
  {
    if script != [] {
      FreeScriptCopies(script[1..]);
    }
  }

  lemma {:induction false} KeepAll(text: string) returns (script: Script)
    ensures Source(script) == Target(script) == text && Cost(script) == 0
  {
    if text == "" {
      script := [];
    } else {
      var later := KeepAll(text[1..]);
      script := [Keep(text[0])] + later;
      assert script[1..] == later;
    }
  }

  /** A name is at distance zero exactly when it holds the query as typed. */
  lemma {:induction false} DistanceZeroIsContainment(query: string, name: string)
    ensures IsClosest(query, name, 0) <==> Contains(query, name)
  {
    if IsClosest(query, name, 0) {
      var script: Script, start: nat, end: nat :| Fits(script, query, name, start, end) && Cost(script) == 0;
      FreeScriptCopies(script);
      assert query <= name[start..];
    }
    if Contains(query, name) {
      var k :| 0 <= k <= |name| && query <= name[k..];
      var script := KeepAll(query);
      assert name[k..k + |query|] == query;
      assert Fits(script, query, name, k, k + |query|);
    }
  }
}
