/** Settings as JSON values, and the merge that lays a patch over them. */
module ConfigMerge {
  import opened Wrappers

  datatype Json =
    | Null
    | Bool(truth: bool)
    | Num(number: real)
    | Text(text: string)
    | Arr(items: seq<Json>)
    | Obj(fields: map<string, Json>)

  type Settings = j: Json | j.Obj? witness Obj(map[])

  // The patch wins, except that two objects under one key are merged in turn.
  function DeepMerge(base: Settings, patch: Settings): Settings
    decreases patch
  {
    Obj(map k | k in base.fields.Keys + patch.fields.Keys ::
          if k !in patch.fields then base.fields[k]
          else if patch.fields[k].Obj? && k in base.fields && base.fields[k].Obj? then
            DeepMerge(base.fields[k], patch.fields[k])
          else patch.fields[k])
  }

  type Path = seq<string>

  // What a reader finds who follows the keys of a path.
  function Lookup(j: Json, path: Path): Option<Json> {
    if path == [] then Some(j)
    else if j.Obj? && path[0] in j.fields then Lookup(j.fields[path[0]], path[1..])
    else None
  }

  // Some proper prefix of the path already ends in a value that is no object.
  predicate Blocked(j: Json, path: Path) {
    path != [] && (!j.Obj? || (path[0] in j.fields && Blocked(j.fields[path[0]], path[1..])))
  }

  /** What a merge holds under every path: a plain value of the patch is taken as it
    * stands, a path the patch says nothing about reads as before, and below a plain
    * value of the patch nothing of the old settings shines through.
    */
  lemma {:induction false} MergeReads(base: Settings, patch: Settings, path: Path)
    ensures Lookup(patch, path).Some? && !Lookup(patch, path).value.Obj? ==>
              Lookup(DeepMerge(base, patch), path) == Lookup(patch, path)
    ensures Lookup(patch, path).None? && !Blocked(patch, path) ==>
              Lookup(DeepMerge(base, patch), path) == Lookup(base, path)
    ensures Blocked(patch, path) ==> Lookup(DeepMerge(base, patch), path) == None
    decreases path
  {
    if path != [] && path[0] in patch.fields {
      var p := patch.fields[path[0]];
      if p.Obj? && path[0] in base.fields && base.fields[path[0]].Obj? {
        MergeReads(base.fields[path[0]], p, path[1..]);
      } else {
        assert DeepMerge(base, patch).fields[path[0]] == p;
        MergeMisses(p, path[1..]);
      }
    }
  }

  lemma MergeMisses(p: Json, path: Path)
    ensures Blocked(p, path) ==> Lookup(p, path) == None
  {
  }

  // Saving the same patch a second time changes nothing.
  lemma {:induction false} MergeTwice(base: Settings, patch: Settings)
    ensures DeepMerge(DeepMerge(base, patch), patch) == DeepMerge(base, patch)
    decreases patch
  {
    var once := DeepMerge(base, patch);
    var twice := DeepMerge(once, patch);
    forall k | k in once.fields
      ensures twice.fields[k] == once.fields[k]
    {
      if k in patch.fields && patch.fields[k].Obj? {
        if k in base.fields && base.fields[k].Obj? {
          MergeTwice(base.fields[k], patch.fields[k]);
        } else {
          MergeSelf(patch.fields[k]);
        }
      }
    }
    assert twice.fields.Keys == once.fields.Keys;
    assert twice.fields == once.fields;
  }

  lemma {:induction false} MergeSelf(patch: Settings)
    ensures DeepMerge(patch, patch) == patch
    decreases patch
  {
    var twice := DeepMerge(patch, patch);
    forall k | k in patch.fields
      ensures twice.fields[k] == patch.fields[k]
    {
      if patch.fields[k].Obj? {
        MergeSelf(patch.fields[k]);
      }
    }
    assert twice.fields == patch.fields;
  }
}
