/**
 What "a typo's worth of editing" means, independently of any table: an edit script spells one string
 and, read the other way, another.  Every part of the source is edited once; keeping a letter is free
 and every other edit, a swap of two neighbours included, costs one.
 */
module EditScripts {

  datatype Edit =
    | Keep(letter: char)
    | Substitute(from: char, to: char)
    | Insert(to: char)
    | Delete(from: char)
    | Swap(first: char, second: char)
  {
    function Source(): string {
      match this
      case Keep(c) => [c]
      case Substitute(a, _) => [a]
      case Insert(_) => ""
      case Delete(a) => [a]
      case Swap(a, b) => [a, b]
    }

    function Target(): string {
      match this
      case Keep(c) => [c]
      case Substitute(_, b) => [b]
      case Insert(b) => [b]
      case Delete(_) => ""
      case Swap(a, b) => [b, a]
    }

    function Cost(): nat {
      if Keep? then 0 else 1
    }
  }

  type Script = seq<Edit>

  function Source(script: Script): string {
    if script == [] then "" else script[0].Source() + Source(script[1..])
  }

  function Target(script: Script): string {
    if script == [] then "" else script[0].Target() + Target(script[1..])
  }

  function Cost(script: Script): nat {
    if script == [] then 0 else script[0].Cost() + Cost(script[1..])
  }

  /** The script turns the needle into the stretch of the haystack between the two ends. */
  ghost predicate Fits(script: Script, needle: string, haystack: string, start: nat, end: nat) {
    && start <= end <= |haystack|
    && Source(script) == needle
    && Target(script) == haystack[start..end]
  }

  /** No script fits any stretch of the haystack for less than the bound. */
  ghost predicate NothingFitsBelow(needle: string, haystack: string, bound: nat) {
    forall script, start, end :: Fits(script, needle, haystack, start, end) ==> bound <= Cost(script)
  }

  /** The distance to the closest stretch: some script achieves it and none undercuts it. */
  ghost predicate IsClosest(needle: string, haystack: string, distance: nat) {
    && NothingFitsBelow(needle, haystack, distance)
    && exists script, start, end :: Fits(script, needle, haystack, start, end) && Cost(script) == distance
  }

  lemma {:induction false} ScriptSnoc(script: Script, edit: Edit)
    ensures Source(script + [edit]) == Source(script) + edit.Source()
    ensures Target(script + [edit]) == Target(script) + edit.Target()
    ensures Cost(script + [edit]) == Cost(script) + edit.Cost()
  {
    if script == [] {
      assert script + [edit] == [edit];
    } else {
      assert (script + [edit])[1..] == script[1..] + [edit];
      ScriptSnoc(script[1..], edit);
    }
  }
}
