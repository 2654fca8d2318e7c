/** The game file store, with the `games/` directory modelled as a map from
    file name to file contents. It holds one record per admitted process and
    the high-score file, whose table the store also keeps in memory. */
module Files {
  import opened Results
  import opened Text

  /** One `name:score` entry of the high-score table. */
  datatype Entry = Entry(name: string, score: int)

  /** The high-score dict: its entries in insertion order, which is the
      order Python iterates a dict and so the order the file is written in. */
  type Scores = seq<Entry>

  /** A dict has each key once. */
  ghost predicate UniqueNames(d: Scores)
  {
    forall i, j | 0 <= i < j < |d| :: d[i].name != d[j].name
  }

  /** `d.get(name)`: the value of the first entry with that name. */
  function Lookup(d: Scores, name: string): Option<int>
  {
    if d == [] then None
    else if d[0].name == name then Some(d[0].score)
    else Lookup(d[1..], name)
  }

  /** A name has no value exactly when no entry carries it, and a value found
      is one the table holds under that name. */
  lemma {:induction false} LookupSpec(d: Scores, name: string)
    ensures Lookup(d, name).None? <==> forall i | 0 <= i < |d| :: d[i].name != name
    ensures Lookup(d, name).Some? ==> Entry(name, Lookup(d, name).value) in d
  {
    if d != [] && d[0].name != name {
      LookupSpec(d[1..], name);
      assert forall i | 1 <= i < |d| :: d[i] == d[1..][i - 1];
    }
  }

  /** `d[name] = score`: an existing key keeps its position and takes the
      new value; a new key is appended. */
  function Put(d: Scores, name: string, score: int): (r: Scores)
    ensures Lookup(r, name) == Some(score)
    ensures forall k | k != name :: Lookup(r, k) == Lookup(d, k)
    ensures Lookup(d, name).None? ==> r == d + [Entry(name, score)]
    ensures Lookup(d, name).Some? ==> |r| == |d|
  {
    if d == [] then [Entry(name, score)]
    else if d[0].name == name then
      var r := [Entry(name, score)] + d[1..];
      LookupCons(Entry(name, score), d[1..]);
      LookupCons(d[0], d[1..]);
      r
    else
      var t := Put(d[1..], name, score);
      LookupCons(d[0], t);
      LookupCons(d[0], d[1..]);
      [d[0]] + t
  }

  /** For a name whose first entry is at position `k`, `d[name] = score`
      replaces the value there and keeps every other entry where it was. */
  lemma {:induction false} PutInPlace(d: Scores, name: string, score: int, k: nat)
    requires k < |d| && d[k].name == name
    requires forall j | 0 <= j < k :: d[j].name != name
    ensures Put(d, name, score) == d[..k] + [Entry(name, score)] + d[k + 1..]
  {
    var e := Entry(name, score);
    if k == 0 {
      assert Put(d, name, score) == [e] + d[1..];
      assert d[..0] == [];
    } else {
      var d' := d[1..];
      assert d[0].name != name;
      assert Put(d, name, score) == [d[0]] + Put(d', name, score);
      forall j | 0 <= j < k - 1 ensures d'[j].name != name {
        assert d'[j] == d[j + 1];
      }
      PutInPlace(d', name, score, k - 1);
      SpliceCons(d, e, k);
    }
  }

  /** Replacing position `k` of `d` is keeping its head and replacing
      position `k - 1` of its tail. */
  lemma SpliceCons(d: Scores, e: Entry, k: nat)
    requires 0 < k < |d|
    ensures [d[0]] + (d[1..][..k - 1] + [e] + d[1..][k..]) == d[..k] + [e] + d[k + 1..]
  {
    assert d[..k] == [d[0]] + d[1..][..k - 1];
    assert d[k + 1..] == d[1..][k..];
  }

  /** Lookup scans from the front. */
  lemma LookupCons(e: Entry, d: Scores)
    ensures forall k :: Lookup([e] + d, k) == if e.name == k then Some(e.score) else Lookup(d, k)
  {
    assert ([e] + d)[1..] == d;
  }

  /** Put keeps the keys unique. */
  lemma {:induction false} PutUnique(d: Scores, name: string, score: int)
    ensures UniqueNames(d) ==> UniqueNames(Put(d, name, score))
  {
    var r := Put(d, name, score);
    if !UniqueNames(d) {
    } else if d != [] && d[0].name != name {
      PutUnique(d[1..], name, score);
      var t := Put(d[1..], name, score);
      assert Lookup(t, d[0].name) == Lookup(d[1..], d[0].name);
      assert Lookup(d[1..], d[0].name).None? by {
        forall i | 0 <= i < |d[1..]| ensures d[1..][i].name != d[0].name {
          assert d[1..][i] == d[i + 1];
        }
        LookupSpec(d[1..], d[0].name);
      }
      LookupSpec(t, d[0].name);
      assert r == [d[0]] + t;
      forall i, j | 0 <= i < j < |r| ensures r[i].name != r[j].name {
        if i == 0 {
          assert r[j] == t[j - 1];
        } else {
          assert r[i] == t[i - 1] && r[j] == t[j - 1];
        }
      }
    } else if d != [] {
      assert r == [Entry(name, score)] + d[1..];
      forall i, j | 0 <= i < j < |r| ensures r[i].name != r[j].name {
        assert r[j] == d[j];
        if i > 0 {
          assert r[i] == d[i];
        }
      }
    }
  }

  /** The high-score file inside the games directory. */
  const HighScoresFile: string := "high_scores.txt"

  /** The store: the directory's files and the in-memory high-score table. */
  datatype FileSystem = FileSystem(disk: map<string, string>, highScores: Scores)

  /** One line of the high-score file. */
  function SerializeLine(e: Entry): string
  {
    e.name + ":" + IntToString(e.score) + "\n"
  }

  /** `_save_high_scores`: the table's lines in dict order. An empty table
      writes an empty file; any other ends with a newline. */
  function Serialize(d: Scores): (r: string)
    ensures r == [] <==> d == []
    ensures r != [] ==> r[|r| - 1] == '\n'
  {
    if d == [] then "" else SerializeLine(d[0]) + Serialize(d[1..])
  }

  /** The two ValueErrors the loader does not catch: a line whose stripped
      text does not split at ':' into exactly two parts, and a score that is
      not an integer. */
  datatype LoadError = UnpackError(line: string) | NotAnInteger(line: string)

  /** The loop of `_load_high_scores` over the remaining lines: a line without
      ':' is skipped; otherwise its stripped text is split at ':' into name and
      score, and the name is set to the score (a later line wins). */
  function ParseLines(lines: seq<string>, acc: Scores): (r: Result<Scores, LoadError>)
    decreases |lines|
    ensures UniqueNames(acc) && r.Ok? ==> UniqueNames(r.value)
  {
    if lines == [] then Ok(acc)
    else
      var line := lines[0];
      if ':' !in line then ParseLines(lines[1..], acc)
      else
        var parts := Split(Strip(line), ':');
        if |parts| != 2 then Err(UnpackError(line))
        else
          match ParseInt(parts[1])
          case None => Err(NotAnInteger(line))
          case Some(v) =>
            PutUnique(acc, parts[0], v);
            ParseLines(lines[1..], Put(acc, parts[0], v))
  }

  /** `_load_high_scores`: a missing file is the empty table. */
  function LoadHighScores(disk: map<string, string>): (r: Result<Scores, LoadError>)
    ensures HighScoresFile !in disk ==> r == Ok([])
    ensures r.Ok? ==> UniqueNames(r.value)
  {
    if HighScoresFile !in disk then Ok([])
    else ParseLines(Lines(disk[HighScoresFile]), [])
  }

  /** The constructor: load the table from the directory (the directory is
      created if missing, which the map model does not need). */
  function Open(disk: map<string, string>): (r: Result<FileSystem, LoadError>)
    ensures r.Ok? <==> LoadHighScores(disk).Ok?
    ensures r.Ok? ==> r.value.disk == disk && UniqueNames(r.value.highScores)
    ensures r.Ok? ==> r.value.highScores == LoadHighScores(disk).value
  {
    match LoadHighScores(disk)
    case Ok(d) => Ok(FileSystem(disk, d))
    case Err(e) => Err(e)
  }

  /** `create_file`: the file now holds `content`, whether or not it existed. */
  function CreateFile(fs: FileSystem, path: string, content: string): (r: FileSystem)
    ensures ReadFile(r, path) == Some(content)
    ensures forall q | q != path :: ReadFile(r, q) == ReadFile(fs, q)
    ensures r.highScores == fs.highScores
  {
    fs.(disk := fs.disk[path := content])
  }

  /** `read_file`: the contents, or None for a missing file. */
  function ReadFile(fs: FileSystem, path: string): (r: Option<string>)
    ensures r.Some? <==> path in fs.disk
    ensures r.Some? ==> r.value == fs.disk[path]
  {
    if path in fs.disk then Some(fs.disk[path]) else None
  }

  /** `write_file`: overwrites an existing file; a missing file is reported
      and nothing changes. */
  function WriteFile(fs: FileSystem, path: string, content: string): (r: FileSystem)
    ensures path !in fs.disk ==> r == fs
    ensures path in fs.disk ==> ReadFile(r, path) == Some(content)
    ensures forall q | q != path :: ReadFile(r, q) == ReadFile(fs, q)
    ensures r.disk.Keys == fs.disk.Keys && r.highScores == fs.highScores
  {
    if path in fs.disk then fs.(disk := fs.disk[path := content]) else fs
  }

  /** `delete_file`: removes an existing file; a missing file is reported and
      nothing changes. */
  function DeleteFile(fs: FileSystem, path: string): (r: FileSystem)
    ensures path !in fs.disk ==> r == fs
    ensures ReadFile(r, path) == None
    ensures forall q | q != path :: ReadFile(r, q) == ReadFile(fs, q)
    ensures r.highScores == fs.highScores
  {
    if path in fs.disk then fs.(disk := fs.disk - {path}) else fs
  }

  /** The update condition of `save_high_score`: no score yet for the name, or
      a strictly higher one. */
  predicate Improves(d: Scores, name: string, score: int)
  {
    Lookup(d, name).None? || score > Lookup(d, name).value
  }

  /** `save_high_score`: an improving score replaces the table entry and the
      whole table is rewritten to the high-score file; otherwise nothing
      changes. The stored value becomes the maximum of the old and new scores. */
  function SaveHighScore(fs: FileSystem, name: string, score: int): (r: FileSystem)
    ensures Lookup(r.highScores, name) == Some(
      match Lookup(fs.highScores, name)
      case None => score
      case Some(prev) => if score > prev then score else prev)
    ensures forall k | k != name :: Lookup(r.highScores, k) == Lookup(fs.highScores, k)
    ensures !Improves(fs.highScores, name, score) ==> r == fs
    ensures Improves(fs.highScores, name, score) ==> r.highScores == Put(fs.highScores, name, score)
    ensures Improves(fs.highScores, name, score) ==>
      && HighScoresFile in r.disk && r.disk[HighScoresFile] == Serialize(r.highScores)
      && forall q | q != HighScoresFile :: ReadFile(r, q) == ReadFile(fs, q)
    ensures UniqueNames(fs.highScores) ==> UniqueNames(r.highScores)
  {
    if Improves(fs.highScores, name, score) then
      var d := Put(fs.highScores, name, score);
      PutUnique(fs.highScores, name, score);
      FileSystem(fs.disk[HighScoresFile := Serialize(d)], d)
    else
      fs
  }

  /** Saving the same score twice is the same as saving it once. */
  lemma SaveHighScoreIdempotent(fs: FileSystem, name: string, score: int)
    ensures SaveHighScore(SaveHighScore(fs, name, score), name, score) == SaveHighScore(fs, name, score)
  {
    var once := SaveHighScore(fs, name, score);
    assert !Improves(once.highScores, name, score);
  }

  /** A name that survives the high-score file: no ':' (the separator), no
      '\n' or '\r' (both end a line when a text file is read back), and no
      leading whitespace (which `strip` would remove). */
  predicate ValidName(n: string)
  {
    ':' !in n && '\n' !in n && '\r' !in n && (n == [] || !IsSpace(n[0]))
  }

  /** Names that fit on one line of the file. */
  ghost predicate OneLineNames(d: Scores)
  {
    forall i | 0 <= i < |d| :: '\n' !in d[i].name
  }

  ghost predicate ValidNames(d: Scores)
  {
    forall i | 0 <= i < |d| :: ValidName(d[i].name)
  }

  /** The line written for an entry ends at its only newline. */
  lemma SerializeLineEnds(e: Entry)
    requires '\n' !in e.name
    ensures IsLine(SerializeLine(e)) && EndsLine(SerializeLine(e))
  {
    IntToStringPlain(e.score);
    var l := SerializeLine(e);
    assert l[..|l| - 1] == e.name + ":" + IntToString(e.score);
  }

  /** The line written for an entry is one well-formed line that strips to
      `name:score`. */
  lemma SerializeLineShape(e: Entry)
    requires ValidName(e.name)
    ensures IsLine(SerializeLine(e)) && EndsLine(SerializeLine(e))
    ensures ':' in SerializeLine(e)
    ensures Strip(SerializeLine(e)) == e.name + ":" + IntToString(e.score)
  {
    var digits := IntToString(e.score);
    IntToStringPlain(e.score);
    var body := e.name + ":" + digits;
    var l := SerializeLine(e);
    assert l == body + "\n";
    assert l[..|l| - 1] == body;
    assert '\n' !in body;
    assert body[|e.name|] == ':';
    assert body[0] == if e.name == [] then ':' else e.name[0];
    assert body[|body| - 1] == digits[|digits| - 1];
    StripLine(body);
  }

  /** The serialiser writes exactly one line per table entry, in order. */
  lemma {:induction false} SerializeLines(d: Scores)
    requires OneLineNames(d)
    ensures |Lines(Serialize(d))| == |d|
    ensures forall i | 0 <= i < |d| :: Lines(Serialize(d))[i] == SerializeLine(d[i])
  {
    if d != [] {
      var tail := Lines(Serialize(d[1..]));
      SerializeCons(d);
      OneLineNamesTail(d);
      SerializeLines(d[1..]);
      var ls := Lines(Serialize(d));
      forall i | 1 <= i < |d| ensures ls[i] == SerializeLine(d[i]) {
        assert ls[i] == tail[i - 1];
        assert d[1..][i - 1] == d[i];
      }
    }
  }

  /** The file of a non-empty table starts with the first entry's line. */
  lemma SerializeCons(d: Scores)
    requires d != [] && '\n' !in d[0].name
    ensures Lines(Serialize(d)) == [SerializeLine(d[0])] + Lines(Serialize(d[1..]))
  {
    SerializeLineEnds(d[0]);
    assert Serialize(d) == SerializeLine(d[0]) + Serialize(d[1..]);
    LinesCons(SerializeLine(d[0]), Serialize(d[1..]));
  }

  lemma OneLineNamesTail(d: Scores)
    requires OneLineNames(d) && d != []
    ensures OneLineNames(d[1..])
  {
    forall i | 0 <= i < |d[1..]| ensures '\n' !in d[1..][i].name {
      assert d[1..][i] == d[i + 1];
    }
  }

  /** In a table with unique names, the first name after a prefix is not in the prefix. */
  lemma FreshName(acc: Scores, d: Scores)
    requires d != [] && UniqueNames(acc + d)
    ensures Lookup(acc, d[0].name).None?
  {
    forall i | 0 <= i < |acc| ensures acc[i].name != d[0].name {
      assert (acc + d)[i] == acc[i] && (acc + d)[|acc|] == d[0];
    }
    LookupSpec(acc, d[0].name);
  }

  lemma AppendFirst(acc: Scores, d: Scores)
    requires d != []
    ensures acc + [d[0]] + d[1..] == acc + d
  {
    assert d == [d[0]] + d[1..];
  }

  lemma ValidNamesTail(d: Scores)
    requires ValidNames(d) && d != []
    ensures ValidNames(d[1..])
  {
    forall i | 0 <= i < |d[1..]| ensures ValidName(d[1..][i].name) {
      assert d[1..][i] == d[i + 1];
    }
  }

  /** Parsing the lines of a serialised table after an accumulated prefix
      appends the table's entries to it. */
  lemma {:induction false} ParseSerialized(d: Scores, acc: Scores)
    requires ValidNames(d) && UniqueNames(acc + d)
    ensures ParseLines(Lines(Serialize(d)), acc) == Ok(acc + d)
  {
    if d == [] {
      assert acc + d == acc;
    } else {
      var e := d[0];
      SerializeLineShape(e);
      LinesCons(SerializeLine(e), Serialize(d[1..]));
      var rest := Lines(Serialize(d[1..]));
      assert Lines(Serialize(d)) == [SerializeLine(e)] + rest;
      WrittenLineSets(e, rest, acc);
      FreshName(acc, d);
      var acc' := Put(acc, e.name, e.score);
      assert acc' == acc + [e];
      AppendFirst(acc, d);
      ValidNamesTail(d);
      ParseSerialized(d[1..], acc');
    }
  }

  /** Round trip: loading a written table gives back the same table, in the
      same order, when its names are unique and survive the line format. */
  lemma LoadSerialized(disk: map<string, string>, d: Scores)
    requires ValidNames(d) && UniqueNames(d)
    ensures LoadHighScores(disk[HighScoresFile := Serialize(d)]) == Ok(d)
  {
    assert [] + d == d;
    ParseSerialized(d, []);
  }

  /** Opening a directory whose high-score file was written from a table
      gives a file system holding exactly that table. */
  lemma OpenSerialized(disk: map<string, string>, d: Scores)
    requires ValidNames(d) && UniqueNames(d)
    ensures Open(disk[HighScoresFile := Serialize(d)]) == Ok(FileSystem(disk[HighScoresFile := Serialize(d)], d))
  {
    LoadSerialized(disk, d);
  }

  /** After an improving save, reloading the high-score file gives the
      in-memory table. */
  lemma SaveHighScorePersists(fs: FileSystem, name: string, score: int)
    requires ValidNames(fs.highScores) && UniqueNames(fs.highScores) && ValidName(name)
    requires Improves(fs.highScores, name, score)
    ensures LoadHighScores(SaveHighScore(fs, name, score).disk) == Ok(SaveHighScore(fs, name, score).highScores)
  {
    var d := Put(fs.highScores, name, score);
    PutValidNames(fs.highScores, name, score);
    PutUnique(fs.highScores, name, score);
    LoadSerialized(fs.disk, d);
  }

  /** Put keeps every name valid when the new name is. */
  lemma {:induction false} PutValidNames(d: Scores, name: string, score: int)
    requires ValidNames(d) && ValidName(name)
    ensures ValidNames(Put(d, name, score))
  {
    if d != [] && d[0].name != name {
      ValidNamesTail(d);
      PutValidNames(d[1..], name, score);
    }
  }

  /** Stripping removes only whitespace, so it keeps every ':' of a line. */
  lemma StripKeepsColons(s: string)
    ensures multiset(Strip(s))[':'] == multiset(s)[':']
  {
    StripLeftKeepsColons(s);
    StripRightKeepsColons(StripLeft(s));
  }

  /** Stripping leading whitespace keeps the ':' count. */
  lemma StripLeftKeepsColons(s: string)
    ensures multiset(StripLeft(s))[':'] == multiset(s)[':']
  {
    var l := StripLeft(s);
    var k := |s| - |l|;
    assert l == s[k..];
    DropSpacesKeepsColons(s, k);
  }

  /** Stripping trailing whitespace keeps the ':' count. */
  lemma StripRightKeepsColons(s: string)
    ensures multiset(StripRight(s))[':'] == multiset(s)[':']
  {
    var r := StripRight(s);
    assert r == s[..|r|];
    DropTrailingSpacesKeepsColons(s, |r|);
  }

  /** Dropping a whitespace prefix keeps the ':' count. */
  lemma DropSpacesKeepsColons(s: string, k: nat)
    requires k <= |s|
    requires forall i | 0 <= i < k :: IsSpace(s[i])
    ensures multiset(s[k..])[':'] == multiset(s)[':']
  {
    SpacesHoldNoColon(s[..k]);
    assert s == s[..k] + s[k..];
    assert multiset(s) == multiset(s[..k]) + multiset(s[k..]);
  }

  /** Dropping a whitespace suffix keeps the ':' count. */
  lemma DropTrailingSpacesKeepsColons(s: string, k: nat)
    requires k <= |s|
    requires forall i | k <= i < |s| :: IsSpace(s[i])
    ensures multiset(s[..k])[':'] == multiset(s)[':']
  {
    SpacesHoldNoColon(s[k..]);
    assert s == s[..k] + s[k..];
    assert multiset(s) == multiset(s[..k]) + multiset(s[k..]);
  }

  /** A run of whitespace holds no ':'. */
  lemma SpacesHoldNoColon(t: string)
    requires forall i | 0 <= i < |t| :: IsSpace(t[i])
    ensures multiset(t)[':'] == 0
  {
    forall i | 0 <= i < |t| ensures t[i] != ':' {
      assert IsSpace(t[i]);
    }
    assert ':' !in t;
  }

  /** A line holding more than one ':' makes the two-name unpack fail: the
      loader stops with a ValueError instead of reading the table. */
  lemma ExtraColonFails(line: string, rest: seq<string>, acc: Scores)
    requires multiset(line)[':'] >= 2
    ensures ParseLines([line] + rest, acc) == Err(UnpackError(line))
  {
    StripKeepsColons(line);
    assert ':' in line;
    var parts := Split(Strip(line), ':');
    assert |parts| >= 3;
    var lines := [line] + rest;
    assert lines[0] == line;
  }

  /** A line without ':' is skipped. */
  lemma NoColonSkipped(line: string, rest: seq<string>, acc: Scores)
    requires ':' !in line
    ensures ParseLines([line] + rest, acc) == ParseLines(rest, acc)
  {
    assert ([line] + rest)[0] == line && ([line] + rest)[1..] == rest;
  }

  /** A line with exactly one ':' splits, once stripped, into a name and a
      score text; if the score text is an integer the name is set to it and
      loading goes on with the next line. The name keeps any whitespace
      before the ':', and the score text may carry whitespace and a sign. */
  lemma OneColonSets(line: string, rest: seq<string>, acc: Scores)
    requires multiset(line)[':'] == 1
    ensures var parts := Split(Strip(line), ':');
      && |parts| == 2
      && (ParseInt(parts[1]).Some? ==>
            ParseLines([line] + rest, acc) == ParseLines(rest, Put(acc, parts[0], ParseInt(parts[1]).value)))
  {
    StripKeepsColons(line);
    assert ([line] + rest)[0] == line && ([line] + rest)[1..] == rest;
  }

  /** A line with exactly one ':' whose score text is not an integer makes
      `int()` raise ValueError, and loading stops with that error. */
  lemma NotAnIntegerFails(line: string, rest: seq<string>, acc: Scores)
    requires multiset(line)[':'] == 1
    ensures var parts := Split(Strip(line), ':');
      && |parts| == 2
      && (ParseInt(parts[1]).None? ==> ParseLines([line] + rest, acc) == Err(NotAnInteger(line)))
  {
    StripKeepsColons(line);
    assert ':' in line;
    var parts := Split(Strip(line), ':');
    assert |parts| == 2;
    var lines := [line] + rest;
    assert lines[0] == line;
  }

  /** A line written for an entry, read back: the entry's name is set to its
      score. */
  lemma WrittenLineSets(e: Entry, rest: seq<string>, acc: Scores)
    requires ValidName(e.name)
    ensures ParseLines([SerializeLine(e)] + rest, acc) == ParseLines(rest, Put(acc, e.name, e.score))
  {
    SerializeLineShape(e);
    IntToStringPlain(e.score);
    SplitPair(e.name, IntToString(e.score), ':');
    ParseIntToString(e.score);
    var lines := [SerializeLine(e)] + rest;
    assert lines[0] == SerializeLine(e) && lines[1..] == rest;
  }
}
