/** `DotEnvConfigurationProvider.Load`: folds the lines of an optional `.env`
    file, in order, into the provider's configuration data. */
module DotEnvProvider {
  import opened Wrappers
  import opened DotEnvLine

  /** The provider's `Data` dictionary: configuration key to value. */
  type Data = map<string, string>

  /** What the file system reports for the configured path: `File.Exists` is
      false, `File.ReadAllLines` fails on an existing file, or it returns the
      file's lines. */
  datatype EnvFile = Missing | Unreadable | Present(lines: seq<string>)

  /** The file-access error `File.ReadAllLines` raises, which `Load` lets
      propagate. */
  datatype LoadError = FileAccessError

  /** What each line contributes, in file order: `None` for a skipped line.
      The ensures spell out the comprehension element by element, so that
      callers can use it without unfolding the body. */
  function ParseAll(lines: seq<string>): (parsed: seq<Option<Entry>>)
    ensures |parsed| == |lines|
    ensures forall i | 0 <= i < |lines| :: parsed[i] == ParseLine(lines[i])
  {
    seq(|lines|, i requires 0 <= i < |lines| => ParseLine(lines[i]))
  }

  /** Every key some entry of `entries` carries. */
  function KeysOf(entries: seq<Option<Entry>>): set<string>
  {
    set i | 0 <= i < |entries| && entries[i].Some? :: entries[i].value.key
  }

  /** `Data[configKey] = value` for an accepted line; nothing for a skipped
      one. Exactly one key is written and every other key is left alone. */
  function Store(data: Data, entry: Option<Entry>): (r: Data)
    ensures entry.None? ==> r == data
    ensures entry.Some? ==> r.Keys == data.Keys + {entry.value.key} && r[entry.value.key] == entry.value.value
    ensures forall k | k in data && !(entry.Some? && entry.value.key == k) :: k in r && r[k] == data[k]
  {
    match entry
    case None => data
    case Some(e) => data[e.key := e.value]
  }

  /** The keys carried by a sequence of entries are those of all but the last,
      plus the key of the last. */
  lemma KeysOfSnoc(entries: seq<Option<Entry>>)
    requires |entries| > 0
    ensures var last := entries[|entries| - 1];
      KeysOf(entries) == KeysOf(entries[..|entries| - 1]) + (if last.Some? then {last.value.key} else {})
  {
    var prefix := entries[..|entries| - 1];
    assert forall i | 0 <= i < |prefix| :: prefix[i] == entries[i];
  }

  /** The entries stored into `data` first to last. The result holds the keys
      `data` held plus every key an entry carries; a key no entry carries keeps
      its old value. */
  function Fold(data: Data, entries: seq<Option<Entry>>): (r: Data)
    ensures r.Keys == data.Keys + KeysOf(entries)
    ensures forall k | k in data && k !in KeysOf(entries) :: r[k] == data[k]
    decreases |entries|
  {
    if |entries| == 0 then data
    else
      KeysOfSnoc(entries);
      Store(Fold(data, entries[..|entries| - 1]), entries[|entries| - 1])
  }

  /** Last write wins: a key holds the value of the last entry that carries
      it. */
  lemma {:induction false} FoldLastWriteWins(data: Data, entries: seq<Option<Entry>>, i: int)
    requires 0 <= i < |entries| && entries[i].Some?
    requires forall j | i < j < |entries| :: !(entries[j].Some? && entries[j].value.key == entries[i].value.key)
    ensures var e := entries[i].value;
      e.key in Fold(data, entries) && Fold(data, entries)[e.key] == e.value
    decreases |entries|
  {
    if i < |entries| - 1 {
      var prefix := entries[..|entries| - 1];
      assert prefix[i] == entries[i];
      FoldLastWriteWins(data, prefix, i);
    }
  }

  /** The value of a key some entry carries does not depend on the data the
      fold starts from. */
  lemma {:induction false} FoldWrittenIgnoresStart(d1: Data, d2: Data, entries: seq<Option<Entry>>, k: string)
    requires k in KeysOf(entries)
    ensures Fold(d1, entries)[k] == Fold(d2, entries)[k]
    decreases |entries|
  {
    var last := entries[|entries| - 1];
    if !(last.Some? && last.value.key == k) {
      KeysOfSnoc(entries);
      FoldWrittenIgnoresStart(d1, d2, entries[..|entries| - 1], k);
    }
  }

  /** Folding the same entries a second time changes nothing. */
  lemma FoldIdempotent(data: Data, entries: seq<Option<Entry>>)
    ensures Fold(Fold(data, entries), entries) == Fold(data, entries)
  {
    var once := Fold(data, entries);
    forall k | k in KeysOf(entries)
      ensures Fold(once, entries)[k] == once[k]
    {
      FoldWrittenIgnoresStart(once, data, entries, k);
    }
  }

  /** Whether `line` is accepted with the key `k`. */
  predicate Writes(line: string, k: string)
  {
    ParseLine(line).Some? && ParseLine(line).value.key == k
  }

  /** Last write wins over the lines of a file: when several accepted lines
      normalise to the same key, the loaded data holds the value of the last of
      them. */
  lemma LinesLastWriteWins(data: Data, lines: seq<string>, i: int)
    requires 0 <= i < |lines| && ParseLine(lines[i]).Some?
    requires forall j | i < j < |lines| :: !Writes(lines[j], ParseLine(lines[i]).value.key)
    ensures var e := ParseLine(lines[i]).value;
      e.key in Fold(data, ParseAll(lines)) && Fold(data, ParseAll(lines))[e.key] == e.value
  {
    FoldLastWriteWins(data, ParseAll(lines), i);
  }

  /** Every key a file adds to the data is a valid key: non-empty, free of `=`
      and without `__`. */
  lemma LoadedKeysValid(data: Data, lines: seq<string>, k: string)
    requires k in Fold(data, ParseAll(lines)) && k !in data
    ensures ValidKey(k)
  {
    var parsed := ParseAll(lines);
    var i :| 0 <= i < |parsed| && parsed[i].Some? && parsed[i].value.key == k;
    assert parsed[i] == ParseLine(lines[i]);
  }

  /** The `foreach` loop of `Load`: stores the entries first to last. */
  method StoreAll(data: Data, entries: seq<Option<Entry>>) returns (d: Data)
    ensures d == Fold(data, entries)
  {
    d := data;
    for i := 0 to |entries|
      invariant d == Fold(data, entries[..i])
    {
      assert entries[..i + 1][..i] == entries[..i];
      var entry := entries[i];
      if entry.Some? {
        d := d[entry.value.key := entry.value.value];
      }
    }
    assert entries[..|entries|] == entries;
  }

  /** `Load`. A missing file is not an error and leaves `data` as it was; an
      existing file that cannot be read fails before any line is stored; the
      lines of a readable file are parsed and stored in order. */
  method Load(data: Data, file: EnvFile) returns (result: Result<Data, LoadError>)
    ensures file.Missing? ==> result == Success(data)
    ensures file.Unreadable? ==> result == Failure(FileAccessError)
    ensures file.Present? ==> result == Success(Fold(data, ParseAll(file.lines)))
  {
    match file
    case Missing =>
      return Success(data);
    case Unreadable =>
      return Failure(FileAccessError);
    case Present(lines) =>
      var d := StoreAll(data, ParseAll(lines));
      return Success(d);
  }
}
