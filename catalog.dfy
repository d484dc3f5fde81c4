/** Turning the catalog file into the two lookups the screen uses: complex id to exercise
    list, and complex id to display name. */
module Catalog {
  import opened Types

  /** No later entry of the catalog repeats the id of entry `i`. */
  ghost predicate LastWithId(entries: seq<CatalogEntry>, i: int)
    requires 0 <= i < |entries|
  {
    forall j :: i < j < |entries| ==> entries[j].id != entries[i].id
  }

  /** The `forEach` that fills `grouped` and `names`: every id of the file becomes a key of
      both maps, and where an id occurs more than once the later entry overwrites the earlier. */
  method GroupCatalog(entries: seq<CatalogEntry>) returns (grouped: map<string, seq<Exercise>>, names: map<string, string>)
    ensures grouped.Keys == names.Keys
    ensures forall id :: id in grouped <==> exists i :: 0 <= i < |entries| && entries[i].id == id
    ensures forall i :: 0 <= i < |entries| && LastWithId(entries, i) ==>
              grouped[entries[i].id] == entries[i].exercises && names[entries[i].id] == entries[i].complex
  {
    grouped, names := map[], map[];
    var n := 0;
    while n < |entries|
      invariant 0 <= n <= |entries|
      invariant grouped.Keys == names.Keys
      invariant forall id :: id in grouped <==> exists i :: 0 <= i < n && entries[i].id == id
      invariant forall i :: 0 <= i < n && (forall j :: i < j < n ==> entries[j].id != entries[i].id) ==>
                  grouped[entries[i].id] == entries[i].exercises && names[entries[i].id] == entries[i].complex
    {
      var entry := entries[n];
      grouped := grouped[entry.id := entry.exercises];
      names := names[entry.id := entry.complex];
      n := n + 1;
    }
  }
}
