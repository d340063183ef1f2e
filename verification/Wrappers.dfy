/** The conventional optional value, used wherever the services answer "nothing". */
module Wrappers {
  datatype Option<+T> = None | Some(value: T)

  /** `part` consists of the elements of `whole` at the positions `picks`, in their order. */
  ghost predicate Selects<T>(whole: seq<T>, part: seq<T>, picks: seq<nat>)
  {
    && |picks| == |part|
    && (forall k :: 0 <= k < |picks| ==> picks[k] < |whole| && part[k] == whole[picks[k]])
    && (forall j, k :: 0 <= j < k < |picks| ==> picks[j] < picks[k])
  }

  lemma SelectsAppend<T>(whole: seq<T>, part: seq<T>, picks: seq<nat>, last: T)
    requires Selects(whole, part, picks)
    ensures Selects(whole + [last], part, picks)
    ensures Selects(whole + [last], part + [last], picks + [|whole|])
  {
  }

  /** Where the picks are exactly the positions of some kind of element, so are the elements picked. */
  lemma SelectedMembers<T>(whole: seq<T>, part: seq<T>, picks: seq<nat>, x: T)
    requires Selects(whole, part, picks)
    ensures x in part <==> exists i :: i in picks && i < |whole| && whole[i] == x
  {
    if x in part {
      var k :| 0 <= k < |part| && part[k] == x;
      assert picks[k] in picks;
    }
    if i :| i in picks && i < |whole| && whole[i] == x {
      var k :| 0 <= k < |picks| && picks[k] == i;
      assert part[k] == x;
    }
  }
}
