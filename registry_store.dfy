/**
  The registry as the script holds it in memory: `load_registry` gives the
  initial list, `upsert_model` changes it in place, the prune of `main`
  replaces it, and `save_registry` sorts it before writing it out.
*/
module RegistryStore {
  import opened Wrappers
  import opened Json
  import opened Ascii
  import opened RegistryEntries
  import opened RegistryOrder

  /** What the registry file holds when the script starts. */
  datatype StoredRegistry =
    | Missing                                   // the file does not exist
    | Unreadable                                // opening or reading it raises
    | Stored(text: string, decoded: Option<seq<Entry>>)
      // its text, and the "models" list `json.loads` gives for it (None: JSONDecodeError)

  /** `load_registry`: the stored list, or a fresh empty one when the file is
      missing, unreadable, blank after `strip()`, or not valid JSON. */
  function LoadRegistry(f: StoredRegistry): (r: seq<Entry>)
    ensures r == [] || (f.Stored? && f.decoded == Some(r))
  {
    match f
    case Missing => []
    case Unreadable => []
    case Stored(text, decoded) =>
      if Strip(text) == [] then []
      else if decoded.None? then []
      else decoded.value
  }

  /** The stored list is used only when the file has a character other than
      whitespace and decodes; in every other case the registry starts empty. */
  lemma LoadRegistryStartsFresh(f: StoredRegistry)
    ensures LoadRegistry(f) ==
      if f.Stored? && f.decoded.Some? && exists i :: 0 <= i < |f.text| && !IsSpace(f.text[i])
      then f.decoded.value else []
  {
    if f.Stored? {
      StripEmptyIffBlank(f.text);
    }
  }

  /** A key Python can look up in a set: neither part is a list or a dict. */
  predicate KeyHashable(m: Entry)
  {
    Hashable(Get(m, "name")) && Hashable(Get(m, "version"))
  }

  /** The in-memory registry `{"models": [...]}`. */
  class Registry {
    var models: seq<Entry>

    constructor (loaded: seq<Entry>)
      ensures models == loaded
    {
      models := loaded;
    }

    /** `upsert_model`: the loop with its `replaced` flag. */
    method Upsert(e: Entry)
      modifies this
      ensures models == Upserted(old(models), e)
    {
      var replaced := false;
      var i := 0;
      while i < |models|
        invariant 0 <= i <= |models|
        invariant models == old(models)
        invariant forall j :: 0 <= j < i ==> KeyOf(models[j]) != KeyOf(e)
      {
        if Get(models[i], "name") == Get(e, "name") && Get(models[i], "version") == Get(e, "version") {
          UpsertReplacesFirstMatch(models, e, i);
          models := models[i := e];
          replaced := true;
          break;
        }
        i := i + 1;
      }
      if !replaced {
        UpsertAppendsWhenAbsent(models, e);
        models := models + [e];
      }
    }

    /** The prune at the end of `main`: keep the entries whose key is in
        `keep`. Looking a key up in a set hashes it, so an entry whose name or
        version is a list or dict makes it fail (TypeError), changing nothing. */
    method Prune(keep: set<Key>) returns (ok: bool)
      modifies this
      ensures ok == forall m :: m in old(models) ==> KeyHashable(m)
      ensures models == if ok then Pruned(old(models), keep) else old(models)
    {
      ok := forall m | m in models :: KeyHashable(m);
      if ok {
        models := Pruned(models, keep);
      }
    }

    /** `save_registry`'s sort; it fails (TypeError) when a name or version is
        present but not a string. The file write itself is not modelled. */
    method Save() returns (ok: bool)
      modifies this
      ensures ok == AllOrderable(old(models))
      ensures ok ==> models == SortByKey(old(models))
      ensures !ok ==> models == old(models)
    {
      ok := forall m | m in models :: Orderable(m);
      if ok {
        models := SortByKey(models);
      }
    }
  }
}
