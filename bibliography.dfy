/**
 * The script's bibliography: a Python `dict` from cite key to entry, where
 * each entry is itself a `dict` from field name to value that also holds the
 * entry's `"cite_type"`. Python dictionaries iterate in first-insertion
 * order, so the dictionary is modelled as its keys in that order plus a map.
 */
module Bibliography {

  /** One entry: field name to value, including the key `"cite_type"`. */
  type Entry = map<string, string>

  /** The key under which an entry keeps its `@type` tag. */
  const CiteTypeKey: string := "cite_type"

  /** The fields the later steps read by name. */
  const TitleKey: string := "title"
  const AuthorKey: string := "author"

  /** An insertion-ordered dictionary from cite key to entry. */
  datatype Bib = Bib(keys: seq<string>, entries: map<string, Entry>)
  {
    /** The keys are listed once each, and exactly the map's keys are listed. */
    ghost predicate Valid()
    {
      (forall i, j :: 0 <= i < j < |keys| ==> keys[i] != keys[j]) &&
      (forall k :: k in entries <==> k in keys)
    }

    /**
     * `bibs[key] = entry`: a new key goes to the end of the order, an existing
     * key keeps its place and gets the new entry.
     */
    function Insert(key: string, entry: Entry): (b: Bib)
      requires Valid()
      ensures b.Valid()
      ensures b.entries == entries[key := entry]
      ensures key in keys ==> b.keys == keys
      ensures key !in keys ==> b.keys == keys + [key]
    {
      if key in entries then Bib(keys, entries[key := entry])
      else Bib(keys + [key], entries[key := entry])
    }

    /** `bibs[key][name] = value` on an entry already present. */
    function SetField(key: string, name: string, value: string): (b: Bib)
      requires Valid() && key in entries
      ensures b.Valid() && b.keys == keys
      ensures b.entries.Keys == entries.Keys
      ensures b.entries[key] == entries[key][name := value]
      ensures forall k :: k in entries && k != key ==> b.entries[k] == entries[k]
    {
      Bib(keys, entries[key := entries[key][name := value]])
    }

    /** `bibs.values()`, in iteration order. */
    function Values(): (vs: seq<Entry>)
      requires Valid()
      ensures |vs| == |keys|
      ensures forall i :: 0 <= i < |keys| ==> vs[i] == entries[keys[i]]
    {
      seq(|keys|, i requires 0 <= i < |keys| => entries[keys[i]])
    }
  }

  /** The empty dictionary `dict()`. */
  const Empty: Bib := Bib([], map[])
}
