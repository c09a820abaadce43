/**
 * The registry files `etc/registry.ini` and `etc/registry_dev.ini`: the
 * `key=value` line format, the loop that reads a file into a string map, and
 * the merge in which the development file overrides the base file.
 */
module RegistryIni {
  import opened Optional
  import opened JsString

  /** A parsed registry file: every value is a plain string. */
  type Config = map<string, string>

  /**
   * What a trimmed line contributes: a blank line, a `;` comment, a line
   * without `=` and a line that begins with `=` contribute nothing; any other
   * line is split at its first `=` into a trimmed key and a trimmed value.
   */
  function EntryOf(t: string): (r: Option<(string, string)>)
    requires IsTrimmed(t)
    ensures r.None? <==> t == [] || t[0] == ';' || '=' !in t || t[0] == '='
    ensures r.Some? ==> r.value.0 != [] && '=' !in r.value.0 && IsTrimmed(r.value.0) && IsTrimmed(r.value.1)
  {
    if t == [] || StartsWith(t, ";") then None
    else
      var eq := IndexOf(t, '=');
      if eq > 0 then
        var key := Trim(t[..eq]);
        assert key != [] by {
          TrimKeepsVisibleStart(t[..eq]);
        }
        assert '=' !in key by {
          var u := t[..eq];
          TrimIsInfix(u);
          var i := |u| - |TrimStart(u)|;
          assert key == u[i..i + |key|];
        }
        Some((key, Trim(t[eq + 1..])))
      else None
  }

  /** What one line of a registry file contributes: the line is trimmed first. */
  function LineEntry(line: string): Option<(string, string)>
  {
    EntryOf(Trim(line))
  }

  /** What each line contributes, line by line. */
  function Entries(lines: seq<string>): (r: seq<Option<(string, string)>>)
    ensures |r| == |lines|
    ensures forall i :: 0 <= i < |lines| ==> r[i] == LineEntry(lines[i])
  {
    seq(|lines|, i requires 0 <= i < |lines| => LineEntry(lines[i]))
  }

  /** The entry assigns `key`. */
  predicate Assigns(e: Option<(string, string)>, key: string) {
    e.Some? && e.value.0 == key
  }

  /** One entry applied to the map: an assignment overwrites its key, nothing else changes. */
  function Apply(m: Config, e: Option<(string, string)>): Config
  {
    match e
    case None => m
    case Some(kv) => m[kv.0 := kv.1]
  }

  /** The map the entries build when applied in order. */
  function Fold(entries: seq<Option<(string, string)>>): Config
  {
    if entries == [] then map[] else Apply(Fold(entries[..|entries| - 1]), entries[|entries| - 1])
  }

  /** The map a whole file's text builds, line by line. */
  function IniText(content: string): Config
  {
    Fold(Entries(Split(content, '\n')))
  }

  /** `parseIniFile` once the file has been read: split at newlines, then fold the lines into the map. */
  method ParseIniFile(content: string) returns (config: Config)
    ensures config == IniText(content)
  {
    var lines := Split(content, '\n');
    ghost var entries := Entries(lines);
    config := map[];
    for i := 0 to |lines|
      invariant config == Fold(entries[..i])
    {
      assert entries[..i + 1][..i] == entries[..i];
      config := ParseLine(config, lines[i]);
    }
    assert entries[..|lines|] == entries;
  }

  /** The body of the line loop: trim, skip blanks and comments, split at the first `=`. */
  method ParseLine(config: Config, line: string) returns (next: Config)
    ensures next == Apply(config, LineEntry(line))
  {
    next := config;
    var trimmed := Trim(line);
    if trimmed == [] || StartsWith(trimmed, ";") {
      return;
    }
    var eqIndex := IndexOf(trimmed, '=');
    if eqIndex > 0 {
      var key := Trim(trimmed[..eqIndex]);
      var value := Trim(trimmed[eqIndex + 1..]);
      next := next[key := value];
    }
  }

  /** A key is present exactly when some entry assigns it. */
  lemma {:induction false} FoldKeys(entries: seq<Option<(string, string)>>, key: string)
    ensures key in Fold(entries) <==> exists i :: 0 <= i < |entries| && Assigns(entries[i], key)
  {
    if entries != [] {
      var init := entries[..|entries| - 1];
      FoldKeys(init, key);
      if exists i :: 0 <= i < |init| && Assigns(init[i], key) {
        var i :| 0 <= i < |init| && Assigns(init[i], key);
        assert Assigns(entries[i], key);
      }
      if exists i :: 0 <= i < |entries| && Assigns(entries[i], key) {
        var i :| 0 <= i < |entries| && Assigns(entries[i], key);
        if i < |init| {
          assert Assigns(init[i], key);
        }
      }
    }
  }

  /** For a repeated key the last assignment wins. */
  lemma {:induction false} FoldLastWins(entries: seq<Option<(string, string)>>, i: nat)
    requires i < |entries| && entries[i].Some?
    requires forall j :: i < j < |entries| ==> !Assigns(entries[j], entries[i].value.0)
    ensures entries[i].value.0 in Fold(entries)
    ensures Fold(entries)[entries[i].value.0] == entries[i].value.1
  {
    var init := entries[..|entries| - 1];
    if i < |entries| - 1 {
      assert init[i] == entries[i];
      forall j | i < j < |init| ensures !Assigns(init[j], entries[i].value.0) {
        assert init[j] == entries[j];
      }
      FoldLastWins(init, i);
    }
  }

  /**
   * The registry file's map: a key is present exactly when some line assigns
   * it, and then holds the value of the last line that does.
   */
  lemma IniTextLookup(content: string, key: string, lines: seq<string>)
    requires lines == Split(content, '\n')
    ensures key in IniText(content) <==> exists i :: 0 <= i < |lines| && Assigns(LineEntry(lines[i]), key)
  {
    FoldKeys(Entries(lines), key);
  }

  lemma IniTextLast(content: string, lines: seq<string>, i: nat)
    requires lines == Split(content, '\n')
    requires i < |lines| && LineEntry(lines[i]).Some?
    requires forall j :: i < j < |lines| ==> !Assigns(LineEntry(lines[j]), LineEntry(lines[i]).value.0)
    ensures LineEntry(lines[i]).value.0 in IniText(content)
    ensures IniText(content)[LineEntry(lines[i]).value.0] == LineEntry(lines[i]).value.1
  {
    FoldLastWins(Entries(lines), i);
  }

  lemma EntryOfSplit(s: string, eq: nat, k: string, v: string)
    requires IsTrimmed(s) && s != [] && s[0] != ';' && eq > 0 && IndexOf(s, '=') == eq
    requires Trim(s[..eq]) == k && Trim(s[eq + 1..]) == v
    ensures EntryOf(s) == Some((k, v))
  {
  }

  /**
   * A line `k=v`, with any blanks around the key, the `=` and the value,
   * yields the entry `k -> v` whenever `k` is a well-formed key. (For an
   * empty value the blanks after `=` are the trailing blanks `d`.)
   */
  lemma LineEntryOfPadded(line: string, a: string, k: string, b: string, c: string, v: string, d: string)
    requires line == a + k + b + "=" + c + v + d
    requires Blank(a) && Blank(b) && Blank(c) && Blank(d)
    requires k != [] && IsTrimmed(k) && '=' !in k && k[0] != ';'
    requires IsTrimmed(v) && (v != [] || c == [])
    ensures LineEntry(line) == Some((k, v))
  {
    var s := k + b + "=" + c + v;
    Regroup(line, a, k, b, c, v, d);
    PairIsTrimmed(k, b, c, v);
    TrimPadded(a, s, d);
    EntryOfPair(k, b, c, v);
  }

  /** The padded line regrouped as the leading blanks, then the trimmed line and its trailing blanks. A separate step, to keep the proofs that use it small. */
  lemma Regroup(line: string, a: string, k: string, b: string, c: string, v: string, d: string)
    requires line == a + k + b + "=" + c + v + d
    ensures line == a + ((k + b + "=" + c + v) + d)
  {
  }

  lemma PairIsTrimmed(k: string, b: string, c: string, v: string)
    requires k != [] && IsTrimmed(k) && IsTrimmed(v) && (v != [] || c == [])
    ensures IsTrimmed(k + b + "=" + c + v)
  {
    var s := k + b + "=" + c + v;
    assert s[0] == k[0];
    if v == [] {
      assert s[|s| - 1] == '=';
    } else {
      assert s[|s| - 1] == v[|v| - 1];
    }
  }

  /** The trimmed line `k b = c v` splits at the `=` after `k b`. A separate step, to keep the proofs that use it small. */
  lemma PairPieces(k: string, b: string, c: string, v: string)
    ensures var s := k + b + "=" + c + v;
      && |s| == |k| + |b| + 1 + |c| + |v|
      && s[|k| + |b|] == '=' && s[..|k| + |b|] == k + b && s[|k| + |b| + 1..] == c + v
  {
  }

  lemma EntryOfPair(k: string, b: string, c: string, v: string)
    requires Blank(b) && Blank(c)
    requires k != [] && IsTrimmed(k) && '=' !in k && k[0] != ';'
    requires IsTrimmed(v) && (v != [] || c == [])
    ensures var s := k + b + "=" + c + v; IsTrimmed(s) && EntryOf(s) == Some((k, v))
  {
    var s := k + b + "=" + c + v;
    PairIsTrimmed(k, b, c, v);
    PairSplitsAtEquals(k, b, c, v);
    EntryOfSplit(s, |k| + |b|, k, v);
  }

  /** In `k b = c v` the first `=` follows `k b`; trimming either side of it gives `k` and `v`. */
  lemma PairSplitsAtEquals(k: string, b: string, c: string, v: string)
    requires Blank(b) && Blank(c) && '=' !in k && IsTrimmed(k) && IsTrimmed(v)
    ensures var s := k + b + "=" + c + v; var eq := |k| + |b|;
      && eq < |s| && IndexOf(s, '=') == eq && Trim(s[..eq]) == k && Trim(s[eq + 1..]) == v
  {
    var s := k + b + "=" + c + v;
    var eq := |k| + |b|;
    PairPieces(k, b, c, v);
    NoEqualsInPadding(k, b);
    IndexOfFirst(s, eq, '=');
    TrimTrailing(k, b);
    TrimLeading(c, v);
  }

  lemma NoEqualsInPadding(k: string, b: string)
    requires Blank(b) && '=' !in k
    ensures '=' !in k + b
  {
    forall j | 0 <= j < |b| ensures b[j] != '=' {
      BlankAt(b, j);
    }
  }

  /** The line `k=v` yields `k -> v`. */
  lemma LineEntryOfKeyValue(k: string, v: string)
    requires k != [] && IsTrimmed(k) && '=' !in k && k[0] != ';'
    requires IsTrimmed(v)
    ensures LineEntry(k + "=" + v) == Some((k, v))
  {
    assert [] + k + [] + "=" + [] + v + [] == k + "=" + v;
    LineEntryOfPadded(k + "=" + v, [], k, [], [], v, []);
  }

  /** A key the line format can write back: parsing `k=v` gives it back unchanged. */
  predicate WellFormedKey(k: string) {
    k != [] && IsTrimmed(k) && '=' !in k && '\n' !in k && k[0] != ';'
  }

  predicate WellFormedValue(v: string) {
    IsTrimmed(v) && '\n' !in v
  }

  /** The lines `k=v` for the entries, in order. */
  function EntryLines(entries: seq<(string, string)>): (r: seq<string>)
    ensures |r| == |entries|
  {
    if entries == [] then []
    else
      var last := entries[|entries| - 1];
      EntryLines(entries[..|entries| - 1]) + [last.0 + "=" + last.1]
  }

  /** The map the entries describe when a later entry overrides an earlier one with the same key. */
  function EntriesMap(entries: seq<(string, string)>): Config
  {
    if entries == [] then map[]
    else
      var last := entries[|entries| - 1];
      EntriesMap(entries[..|entries| - 1])[last.0 := last.1]
  }

  /** A key is in the entries' map exactly when some entry has it. */
  lemma {:induction false} EntriesMapKeys(entries: seq<(string, string)>, key: string)
    ensures key in EntriesMap(entries) <==> exists i :: 0 <= i < |entries| && entries[i].0 == key
  {
    if entries != [] {
      var init := entries[..|entries| - 1];
      EntriesMapKeys(init, key);
      if exists i :: 0 <= i < |init| && init[i].0 == key {
        var i :| 0 <= i < |init| && init[i].0 == key;
        assert entries[i].0 == key;
      }
      if exists i :: 0 <= i < |entries| && entries[i].0 == key {
        var i :| 0 <= i < |entries| && entries[i].0 == key;
        if i < |init| {
          assert init[i].0 == key;
        }
      }
    }
  }

  /** A key's value in the entries' map comes from the last entry that has the key. */
  lemma {:induction false} EntriesMapLast(entries: seq<(string, string)>, i: nat)
    requires i < |entries|
    requires forall j :: i < j < |entries| ==> entries[j].0 != entries[i].0
    ensures entries[i].0 in EntriesMap(entries)
    ensures EntriesMap(entries)[entries[i].0] == entries[i].1
  {
    var init := entries[..|entries| - 1];
    if i < |entries| - 1 {
      assert init[i] == entries[i];
      forall j | i < j < |init| ensures init[j].0 != entries[i].0 {
        assert init[j] == entries[j];
      }
      EntriesMapLast(init, i);
    }
  }

  lemma {:induction false} FoldEntryLines(entries: seq<(string, string)>)
    requires forall i :: 0 <= i < |entries| ==> WellFormedKey(entries[i].0) && WellFormedValue(entries[i].1)
    ensures Fold(Entries(EntryLines(entries))) == EntriesMap(entries)
  {
    if entries != [] {
      var init := entries[..|entries| - 1];
      var last := entries[|entries| - 1];
      FoldEntryLines(init);
      var lines := EntryLines(entries);
      assert lines[..|lines| - 1] == EntryLines(init);
      assert Entries(lines)[..|lines| - 1] == Entries(EntryLines(init));
      LineEntryOfKeyValue(last.0, last.1);
    }
  }

  /**
   * Writing well-formed entries as `k=v` lines and parsing the text gives the
   * entries back as a map, a later duplicate key overriding an earlier one.
   */
  lemma WriteThenParse(entries: seq<(string, string)>)
    requires entries != []
    requires forall i :: 0 <= i < |entries| ==> WellFormedKey(entries[i].0) && WellFormedValue(entries[i].1)
    ensures IniText(Join(EntryLines(entries), "\n")) == EntriesMap(entries)
  {
    var lines := EntryLines(entries);
    forall i | 0 <= i < |lines| ensures '\n' !in lines[i] {
      EntryLineHasNoNewline(entries, i);
    }
    SplitJoin(lines, '\n');
    FoldEntryLines(entries);
  }

  /** An empty file is one blank line and yields the empty map. */
  lemma EmptyFileIsEmpty()
    ensures IniText("") == map[]
  {
    assert Split("", '\n') == [""];
    assert LineEntry("") == None;
    assert Entries([""])[..0] == [];
  }

  lemma {:induction false} EntryLineHasNoNewline(entries: seq<(string, string)>, i: nat)
    requires i < |entries|
    requires forall i :: 0 <= i < |entries| ==> WellFormedKey(entries[i].0) && WellFormedValue(entries[i].1)
    ensures '\n' !in EntryLines(entries)[i]
  {
    var init := entries[..|entries| - 1];
    if i < |entries| - 1 {
      EntryLineHasNoNewline(init, i);
    } else {
      var last := entries[i];
      assert EntryLines(entries)[i] == last.0 + "=" + last.1;
    }
  }

  /** `{ ...registry, ...registryDev }`: every key of either file, the development file winning a collision. */
  function Merge(registry: Config, registryDev: Config): (r: Config)
    ensures r.Keys == registry.Keys + registryDev.Keys
    ensures forall k :: k in registryDev ==> r[k] == registryDev[k]
    ensures forall k :: k in registry && k !in registryDev ==> r[k] == registry[k]
  {
    registry + registryDev
  }
}
