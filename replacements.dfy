/**
 * The path-replacement table: `populateStringReplacementList` fills
 * `g_stringList` from the "replacements" array of replacements.json, and
 * `replaceString` (called by the hook on the path constructor) swaps a path
 * for the replacement of the last entry whose crc matches the path's.
 *
 * `crc64` is the game's hash, a parameter here. cJSON's parse is the input
 * `parsed`: `None` when the file does not parse, otherwise the items of the
 * "replacements" array in order. A slot that `malloc` leaves uninitialised
 * holds `junk(i)`, whatever the heap had there.
 */
module StringReplacement {
  import opened Basics

  /** One `stringList` entry; a NULL replacement is `None`. */
  datatype StringEntry = StringEntry(crc: u64, replacement: Option<string>)

  /** An item of the "replacements" array: a string, an object (its name and
      the string value of its first child, `None` when that is not a string),
      or anything else. */
  datatype JsonItem = JString(value: string) | JObject(name: string, child: Option<string>) | JOther

  const RomPrefix: string := "rom:/"

  /** The path after scanning `list` from the front, starting from `path`:
      every entry whose crc equals `crc` overwrites it, so the last one wins. */
  function Lookup(list: seq<StringEntry>, crc: u64, path: Option<string>): Option<string>
    decreases |list|
  {
    if list == [] then path
    else if list[|list| - 1].crc == crc then list[|list| - 1].replacement
    else Lookup(list[..|list| - 1], crc, path)
  }

  /** No matching entry: the path is left alone. */
  lemma {:induction false} LookupNoMatch(list: seq<StringEntry>, crc: u64, path: Option<string>)
    requires forall i :: 0 <= i < |list| ==> list[i].crc != crc
    ensures Lookup(list, crc, path) == path
    decreases |list|
  {
    if list != [] {
      LookupNoMatch(list[..|list| - 1], crc, path);
    }
  }

  /** The last matching entry decides the result. */
  lemma {:induction false} LookupLastMatch(list: seq<StringEntry>, crc: u64, path: Option<string>, j: nat)
    requires j < |list| && list[j].crc == crc
    requires forall k :: j < k < |list| ==> list[k].crc != crc
    ensures Lookup(list, crc, path) == list[j].replacement
    decreases |list|
  {
    if j < |list| - 1 {
      var front := list[..|list| - 1];
      assert front[j] == list[j];
      LookupLastMatch(front, crc, path, j);
    }
  }

  /** The entry for item `i` of the array. */
  function ItemEntry(item: JsonItem, crc64: string -> u64, uninitialised: StringEntry): StringEntry
  {
    match item
    case JString(s) => StringEntry(crc64(s), Some(RomPrefix + s))
    case JObject(name, child) => StringEntry(crc64(name), child)
    case JOther => uninitialised
  }

  /** The list built from the items: one entry per item, in order. */
  function Populated(items: seq<JsonItem>, crc64: string -> u64, junk: nat -> StringEntry): (r: seq<StringEntry>)
    ensures |r| == |items|
  {
    seq(|items|, i requires 0 <= i < |items| => ItemEntry(items[i], crc64, junk(i)))
  }

  /** A path listed as a string item is redirected into "rom:/" unless a later
      entry has the same crc. */
  lemma StringItemRedirects(items: seq<JsonItem>, crc64: string -> u64, junk: nat -> StringEntry, j: nat)
    requires j < |items| && items[j].JString?
    requires forall k :: j < k < |items| ==> Populated(items, crc64, junk)[k].crc != crc64(items[j].value)
    ensures Lookup(Populated(items, crc64, junk), crc64(items[j].value), Some(items[j].value))
         == Some(RomPrefix + items[j].value)
  {
    assert Populated(items, crc64, junk)[j] == ItemEntry(items[j], crc64, junk(j));
    LookupLastMatch(Populated(items, crc64, junk), crc64(items[j].value), Some(items[j].value), j);
  }

  /** An object item `{ name: replacement }` redirects `name` to its child's
      string (to NULL when the child is not a string), unless a later entry has
      the same crc. */
  lemma ObjectItemRedirects(items: seq<JsonItem>, crc64: string -> u64, junk: nat -> StringEntry, j: nat)
    requires j < |items| && items[j].JObject?
    requires forall k :: j < k < |items| ==> Populated(items, crc64, junk)[k].crc != crc64(items[j].name)
    ensures Lookup(Populated(items, crc64, junk), crc64(items[j].name), Some(items[j].name)) == items[j].child
  {
    assert Populated(items, crc64, junk)[j] == ItemEntry(items[j], crc64, junk(j));
    LookupLastMatch(Populated(items, crc64, junk), crc64(items[j].name), Some(items[j].name), j);
  }

  /** `g_stringList` with `g_stringListSize` = `entries.Length`. */
  class StringTable {
    var entries: array<StringEntry>

    /** The static initial value: no list. */
    constructor ()
      ensures entries.Length == 0
    {
      entries := new StringEntry[0];
    }

    /** `replaceString`: hash the path and scan the whole list. */
    method ReplaceString(path: string, crc64: string -> u64) returns (r: Option<string>)
      ensures r == Lookup(entries[..], crc64(path), Some(path))
    {
      var crc := crc64(path);
      r := Some(path);
      for i := 0 to entries.Length
        invariant r == Lookup(entries[..i], crc, Some(path))
      {
        assert entries[..i + 1][..i] == entries[..i];
        if crc == entries[i].crc {
          r := entries[i].replacement;
        }
      }
      assert entries[..entries.Length] == entries[..];
    }

    /** `populateStringReplacementList`: nothing when the file does not
        parse; otherwise a new list with one entry per item. */
    method Populate(parsed: Option<seq<JsonItem>>, crc64: string -> u64, junk: nat -> StringEntry)
      modifies this
      ensures parsed.None? ==> entries == old(entries)
      ensures parsed.Some? ==> fresh(entries) && entries[..] == Populated(parsed.value, crc64, junk)
    {
      if parsed.None? {
        return;
      }
      var items := parsed.value;
      var list := new StringEntry[|items|](k => junk(k));
      for i := 0 to |items|
        invariant forall k :: 0 <= k < i ==> list[k] == ItemEntry(items[k], crc64, junk(k))
        invariant forall k :: i <= k < |items| ==> list[k] == junk(k)
      {
        match items[i]
        case JString(fileStr) =>
          list[i] := StringEntry(crc64(fileStr), Some(RomPrefix + fileStr));
        case JObject(name, child) =>
          list[i] := StringEntry(crc64(name), child);
        case JOther =>
      }
      entries := list;
    }
  }
}
