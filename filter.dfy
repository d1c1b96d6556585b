/**
  The include/exclude decision (ShouldExclude in Source/BlinkSyncLib/BlinkSync.cs).
  A present exclude list decides alone; otherwise a present include list
  excludes what none of its patterns accepts; with neither, nothing is excluded.
*/
module Filter {
  import opened Wrappers
  import opened FileSpec

  /** Some pattern of `list` accepts `name` (the foreach with an early return). */
  function AnyAccepts(list: seq<Matcher>, name: string): (r: bool)
    ensures r <==> exists i :: 0 <= i < |list| && Accepts(list[i], name)
  {
    if list == [] then false
    else if Accepts(list[0], name) then true
    else AnyAccepts(list[1..], name)
  }

  function ShouldExclude(excludeList: Option<seq<Matcher>>, includeList: Option<seq<Matcher>>, name: string): (r: bool)
    ensures excludeList.Some? ==>
              (r <==> exists i :: 0 <= i < |excludeList.value| && Accepts(excludeList.value[i], name))
    ensures excludeList.None? && includeList.Some? ==>
              (r <==> forall i :: 0 <= i < |includeList.value| ==> !Accepts(includeList.value[i], name))
    ensures excludeList.None? && includeList.None? ==> !r
  {
    if excludeList.Some? then AnyAccepts(excludeList.value, name)
    else if includeList.Some? then !AnyAccepts(includeList.value, name)
    else false
  }

  /** With an exclude list present the include list is never consulted. */
  lemma ExcludeListDecidesAlone(excludeList: seq<Matcher>, inc1: Option<seq<Matcher>>, inc2: Option<seq<Matcher>>, name: string)
    ensures ShouldExclude(Some(excludeList), inc1, name) == ShouldExclude(Some(excludeList), inc2, name)
  {
  }

  /** Excluding by a list and including by the same list are complementary. */
  lemma IncludeIsComplementOfExclude(list: seq<Matcher>, name: string)
    ensures ShouldExclude(None, Some(list), name) == !ShouldExclude(Some(list), None, name)
  {
  }

  /** A present but empty include list excludes every name; an empty exclude list none. */
  lemma EmptyLists(name: string)
    ensures ShouldExclude(None, Some([]), name)
    ensures !ShouldExclude(Some([]), None, name)
  {
  }
}
