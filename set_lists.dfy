/** The two ways a handler rewrites the set list of one exercise in place of appending:
    deleting by position and overwriting the set under edit. */
module SetLists {
  import opened Types

  /** `sets.filter((_, i) => i !== skip)`, walking the list from position 0 as `filter` does.
      Deleting position `skip` shifts every later set down by one; a position outside the list
      removes nothing. */
  function DropAt(sets: seq<SetRecord>, skip: int): (r: seq<SetRecord>)
    ensures 0 <= skip < |sets| ==> |r| == |sets| - 1
    ensures 0 <= skip < |sets| ==> forall k :: 0 <= k < skip ==> r[k] == sets[k]
    ensures 0 <= skip < |sets| ==> forall k :: skip <= k < |r| ==> r[k] == sets[k + 1]
    ensures !(0 <= skip < |sets|) ==> r == sets
  {
    if sets == [] then []
    else (if skip == 0 then [] else [sets[0]]) + DropAt(sets[1..], skip - 1)
  }

  /** The list after `newSets[j] = record` on a copy of `sets`. Assigning at the length
      extends the list by one, as a JavaScript array does. */
  function PutAt(sets: seq<SetRecord>, j: nat, record: SetRecord): (r: seq<SetRecord>)
    requires j <= |sets|
    ensures |r| == if j < |sets| then |sets| else |sets| + 1
    ensures r[j] == record
    ensures forall k :: 0 <= k < |sets| && k != j ==> r[k] == sets[k]
  {
    if j < |sets| then sets[j := record] else sets + [record]
  }
}
