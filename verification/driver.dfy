/** `convert_all_keep_json_to_markdown` without its I/O: the directory listing,
    reading and decoding a file, and writing one are parameters, and the outcome
    of each file is a value instead of a printed message. */
module Driver {
  import opened Wrappers
  import opened Text
  import opened Notes
  import opened Markdown

  // ---------------------------------------------------------------------------
  // File names and paths (POSIX `os.path`).

  /** The files the batch converts: `filename.endswith('.json')`, case-sensitive. */
  predicate IsJsonName(name: string)
  {
    EndsWith(name, ".json")
  }

  /** Index of the last `c` in `s`, or -1 (`str.rfind`). */
  function LastIndex(s: string, c: char): (k: int)
    ensures -1 <= k < |s|
    ensures k >= 0 ==> s[k] == c
    ensures forall i :: k < i < |s| ==> s[i] != c
  {
    if s == [] then -1
    else if s[|s| - 1] == c then |s| - 1
    else LastIndex(s[..|s| - 1], c)
  }

  /** `os.path.splitext(p)[0]`: drops the text from the last dot of the last
      path component, unless that component has only dots before it (a name
      like `.json` or `..json` keeps its whole text). */
  function SplitExtRoot(p: string): string
  {
    var sep := LastIndex(p, '/');
    var dot := LastIndex(p, '.');
    if dot > sep && exists i :: sep + 1 <= i < dot && p[i] != '.' then p[..dot] else p
  }

  /** The name of the Markdown file written for the JSON file `name`. */
  function MarkdownName(name: string): string
  {
    SplitExtRoot(name) + ".md"
  }

  /** A stem with something other than dots before `.json` loses the suffix:
      `stem.json` becomes `stem.md`. */
  lemma MarkdownNameOrdinary(stem: string)
    requires '/' !in stem
    requires exists i :: 0 <= i < |stem| && stem[i] != '.'
    ensures IsJsonName(stem + ".json")
    ensures MarkdownName(stem + ".json") == stem + ".md"
  {
    var p := stem + ".json";
    assert p[|p| - 5..] == ".json";
    assert LastIndex(p, '.') == |stem| by {
      assert p[|stem|] == '.';
      assert forall i :: |stem| < i < |p| ==> p[i] != '.';
    }
    assert LastIndex(p, '/') == -1 by {
      forall i | 0 <= i < |p|
        ensures p[i] != '/'
      {
        if i < |stem| {
          assert p[i] == stem[i];
        }
      }
    }
    var j :| 0 <= j < |stem| && stem[j] != '.';
    assert p[j] != '.';
    assert p[..|stem|] == stem;
  }

  /** A stem made only of dots (`.json`, `..json`) keeps the whole name, so the
      output is `<name>.md`. */
  lemma MarkdownNameDotStem(stem: string)
    requires forall i :: 0 <= i < |stem| ==> stem[i] == '.'
    ensures MarkdownName(stem + ".json") == stem + ".json.md"
  {
    var p := stem + ".json";
    assert LastIndex(p, '.') == |stem| by {
      assert p[|stem|] == '.';
      assert forall i :: |stem| < i < |p| ==> p[i] != '.';
    }
    forall i | 0 <= i < |stem|
      ensures p[i] == '.'
    {
      assert p[i] == stem[i];
    }
  }

  /** Consequently two different JSON files can share one Markdown file: the
      second conversion overwrites the first. */
  lemma MarkdownNamesCanCollide()
    ensures IsJsonName(".json") && IsJsonName(".json.json")
    ensures MarkdownName(".json") == MarkdownName(".json.json") == ".json.md"
  {
    assert MarkdownName(".json") == ".json.md" by {
      MarkdownNameDotStem("");
      assert "" + ".json" == ".json";
    }
    assert MarkdownName(".json.json") == ".json.md" by {
      assert ".json"[1] != '.';
      MarkdownNameOrdinary(".json");
      assert ".json" + ".json" == ".json.json";
    }
    assert IsJsonName(".json.json") by {
      assert ".json.json"[5..] == ".json";
    }
  }

  /** `os.path.join(a, b)` for two components: a relative `b` goes under the
      directory `a`, an absolute one replaces it. */
  function PathJoin(a: string, b: string): (p: string)
    ensures EndsWith(p, b)
    ensures (b == [] || b[0] != '/') ==> a <= p
    ensures a != [] && (b == [] || b[0] != '/') ==>
              |b| < |p| <= |a| + 1 + |b| && p[|p| - |b| - 1] == '/'
    ensures b != [] && b[0] == '/' ==> p == b
  {
    if |b| > 0 && b[0] == '/' then b
    else if a == [] || a[|a| - 1] == '/' then a + b
    else a + "/" + b
  }

  /** Joining one directory with two different relative names gives two
      different paths: output paths collide only when the names do. */
  lemma PathJoinInjective(a: string, b1: string, b2: string)
    requires b1 == [] || b1[0] != '/'
    requires b2 == [] || b2[0] != '/'
    requires PathJoin(a, b1) == PathJoin(a, b2)
    ensures b1 == b2
  {
    var p := PathJoin(a, b1);
    var k := if a == [] || a[|a| - 1] == '/' then |a| else |a| + 1;
    assert p[k..] == b1;
    assert p[k..] == b2;
  }

  // ---------------------------------------------------------------------------
  // One file.

  datatype IoError = FileMissing | IoFailure(reason: string)

  /** What opening a JSON file and `json.load` give: a note, an I/O error, text
      that is not JSON, or JSON that is not a note record. */
  datatype Loaded = Parsed(note: Note) | ReadFailed(error: IoError) | NotJson | NotANote(reason: string)

  /** The outcome of one file, as the three `except` clauses classify it. */
  datatype Report =
    | Converted(mdPath: string, markdown: string)
    | NotFound(jsonPath: string)
    | DecodeFailed(jsonPath: string)
    | ConversionFailed(jsonPath: string, reason: string)

  /** The `try` block for one file: read and decode `jsonPath`, render the
      note, write the document to `mdPath`. `render` is `json_to_markdown` with
      its timestamp formatter, see `ConvertKeepExport`. */
  function ConvertFile(jsonPath: string, mdPath: string,
                       load: string -> Loaded,
                       render: Note -> Result<string, string>,
                       store: (string, string) -> Option<IoError>): Report
  {
    match load(jsonPath)
    case ReadFailed(FileMissing) => NotFound(jsonPath)
    case ReadFailed(IoFailure(why)) => ConversionFailed(jsonPath, why)
    case NotJson => DecodeFailed(jsonPath)
    case NotANote(why) => ConversionFailed(jsonPath, why)
    case Parsed(note) =>
      match render(note)
      case Err(why) => ConversionFailed(jsonPath, why)
      case Ok(md) =>
        match store(mdPath, md)
        case None => Converted(mdPath, md)
        case Some(FileMissing) => NotFound(jsonPath)
        case Some(IoFailure(why)) => ConversionFailed(jsonPath, why)
  }

  /** A file is converted exactly when it loads as a note, renders and is
      stored, and its document then goes to the Markdown path. Every failure
      names the JSON file; a missing file, undecodable text and any other error
      are told apart as the three `except` clauses do. */
  lemma ConvertFileReport(jsonPath: string, mdPath: string,
                          load: string -> Loaded,
                          render: Note -> Result<string, string>,
                          store: (string, string) -> Option<IoError>)
    ensures var r := ConvertFile(jsonPath, mdPath, load, render, store);
            && (r.Converted? <==>
                  && load(jsonPath).Parsed?
                  && render(load(jsonPath).note).Ok?
                  && store(mdPath, render(load(jsonPath).note).value).None?)
            && (r.Converted? ==> r == Converted(mdPath, render(load(jsonPath).note).value))
            && (!r.Converted? ==> r.jsonPath == jsonPath)
            && (r.NotFound? <==>
                  || load(jsonPath) == ReadFailed(FileMissing)
                  || (&& load(jsonPath).Parsed?
                      && render(load(jsonPath).note).Ok?
                      && store(mdPath, render(load(jsonPath).note).value) == Some(FileMissing)))
            && (r.DecodeFailed? <==> load(jsonPath) == NotJson)
  {
  }

  // ---------------------------------------------------------------------------
  // The batch.

  /** The names of the listing the batch converts, in listing order. */
  function Selected(listing: seq<string>): (names: seq<string>)
    ensures |names| <= |listing|
    ensures forall i :: 0 <= i < |names| ==> IsJsonName(names[i])
  {
    if listing == [] then []
    else (if IsJsonName(listing[0]) then [listing[0]] else []) + Selected(listing[1..])
  }

  /** A name is selected exactly when it is listed and ends in `.json`. */
  lemma {:induction false} SelectedMembers(listing: seq<string>, x: string)
    ensures x in Selected(listing) <==> x in listing && IsJsonName(x)
  {
    if listing != [] {
      SelectedMembers(listing[1..], x);
      assert listing == [listing[0]] + listing[1..];
    }
  }

  /** Selection distributes over a split listing, so it keeps the listing's
      order. */
  lemma {:induction false} SelectedAppend(a: seq<string>, b: seq<string>)
    ensures Selected(a + b) == Selected(a) + Selected(b)
  {
    if a != [] {
      assert (a + b)[1..] == a[1..] + b;
      SelectedAppend(a[1..], b);
    } else {
      assert a + b == b;
    }
  }

  /** The loop body for one listed name: both paths, then the `try` block. */
  function ProcessName(jsonDir: string, mdDir: string, name: string,
                       load: string -> Loaded,
                       render: Note -> Result<string, string>,
                       store: (string, string) -> Option<IoError>): Report
  {
    ConvertFile(PathJoin(jsonDir, name), PathJoin(mdDir, MarkdownName(name)), load, render, store)
  }

  /** Every selected name in turn, each in isolation. */
  function ConvertAll(jsonDir: string, mdDir: string, listing: seq<string>,
                      load: string -> Loaded,
                      render: Note -> Result<string, string>,
                      store: (string, string) -> Option<IoError>): seq<Report>
  {
    if listing == [] then []
    else
      (if IsJsonName(listing[0]) then [ProcessName(jsonDir, mdDir, listing[0], load, render, store)] else [])
      + ConvertAll(jsonDir, mdDir, listing[1..], load, render, store)
  }

  /** `rs` holds, in order, the report `process` gives for each of `names`. */
  predicate ReportsFor(rs: seq<Report>, names: seq<string>, process: string -> Report)
  {
    && |rs| == |names|
    && forall k :: 0 <= k < |rs| ==> rs[k] == process(names[k])
  }

  lemma ReportsForCons(r: Report, rs: seq<Report>, name: string, names: seq<string>,
                       process: string -> Report)
    requires ReportsFor(rs, names, process)
    requires r == process(name)
    ensures ReportsFor([r] + rs, [name] + names, process)
  {
    forall k | 0 <= k < |rs| + 1
      ensures ([r] + rs)[k] == process(([name] + names)[k])
    {
      if k > 0 {
        assert ([r] + rs)[k] == rs[k - 1];
        assert ([name] + names)[k] == names[k - 1];
      }
    }
  }

  /** The batch reports once per selected name, in listing order, and each
      report is that name's own conversion. */
  lemma {:induction false} ConvertAllReports(jsonDir: string, mdDir: string, listing: seq<string>,
                                             load: string -> Loaded,
                                             render: Note -> Result<string, string>,
                                             store: (string, string) -> Option<IoError>)
    ensures var rs := ConvertAll(jsonDir, mdDir, listing, load, render, store);
            && |rs| == |Selected(listing)|
            && forall k :: 0 <= k < |rs| ==>
                 rs[k] == ProcessName(jsonDir, mdDir, Selected(listing)[k], load, render, store)
  {
    var rs := ConvertAll(jsonDir, mdDir, listing, load, render, store);
    var process := name => ProcessName(jsonDir, mdDir, name, load, render, store);
    assert ReportsFor(rs, Selected(listing), process) by {
      if listing != [] {
        ConvertAllReports(jsonDir, mdDir, listing[1..], load, render, store);
        var rest := ConvertAll(jsonDir, mdDir, listing[1..], load, render, store);
        var names := Selected(listing[1..]);
        assert ReportsFor(rest, names, process);
        if IsJsonName(listing[0]) {
          var r := ProcessName(jsonDir, mdDir, listing[0], load, render, store);
          assert rs == [r] + rest;
          assert Selected(listing) == [listing[0]] + names;
          ReportsForCons(r, rest, listing[0], names, process);
        } else {
          assert rs == rest;
          assert Selected(listing) == names;
        }
      }
    }
  }

  /** `convert_all_keep_json_to_markdown(json_dir, md_dir)`, with the listing of
      `json_dir`, reading, timestamp formatting and writing passed in. */
  function ConvertKeepExport(jsonDir: string, mdDir: string, listing: seq<string>,
                             load: string -> Loaded,
                             format: Stamp -> Result<string, string>,
                             store: (string, string) -> Option<IoError>): seq<Report>
  {
    ConvertAll(jsonDir, mdDir, listing, load, n => JsonToMarkdown(n, format), store)
  }

  /** Every document the export writes is the rendering of the note read from
      that file, with both timestamps formatted; a note is skipped with the
      formatter's message when a timestamp does not format. */
  lemma ConvertKeepExportDocuments(jsonDir: string, mdDir: string, listing: seq<string>,
                                   load: string -> Loaded,
                                   format: Stamp -> Result<string, string>,
                                   store: (string, string) -> Option<IoError>,
                                   k: nat)
    requires k < |Selected(listing)|
    ensures var rs := ConvertKeepExport(jsonDir, mdDir, listing, load, format, store);
            var name := Selected(listing)[k];
            var jsonPath := PathJoin(jsonDir, name);
            && k < |rs|
            && (rs[k].Converted? ==>
                  && load(jsonPath).Parsed?
                  && var n := load(jsonPath).note;
                     && format(CreatedStamp(n)).Ok? && format(EditedStamp(n)).Ok?
                     && rs[k] == Converted(PathJoin(mdDir, MarkdownName(name)),
                                           Document(n, format(CreatedStamp(n)).value, format(EditedStamp(n)).value)))
            && (load(jsonPath).Parsed? && format(CreatedStamp(load(jsonPath).note)).Err? ==>
                  rs[k] == ConversionFailed(jsonPath, format(CreatedStamp(load(jsonPath).note)).error))
  {
    var render := (n: Note) => JsonToMarkdown(n, format);
    ConvertAllReports(jsonDir, mdDir, listing, load, render, store);
    var name := Selected(listing)[k];
    ConvertFileReport(PathJoin(jsonDir, name), PathJoin(mdDir, MarkdownName(name)), load, render, store);
  }

  /** One file's outcome depends only on what reading its JSON path and writing
      its Markdown path do. */
  lemma ConvertFileIsLocal(jsonPath: string, mdPath: string,
                           load1: string -> Loaded, load2: string -> Loaded,
                           render: Note -> Result<string, string>,
                           store1: (string, string) -> Option<IoError>,
                           store2: (string, string) -> Option<IoError>)
    requires load1(jsonPath) == load2(jsonPath)
    requires forall md :: store1(mdPath, md) == store2(mdPath, md)
    ensures ConvertFile(jsonPath, mdPath, load1, render, store1)
         == ConvertFile(jsonPath, mdPath, load2, render, store2)
  {
    if load1(jsonPath).Parsed? && render(load1(jsonPath).note).Ok? {
      assert store1(mdPath, render(load1(jsonPath).note).value)
          == store2(mdPath, render(load1(jsonPath).note).value);
    }
  }

  /** One file's report in the batch depends on nothing but that file: two runs
      whose reading and writing agree on the paths of the `k`-th selected name
      report the same for it, whatever happens to the other files. */
  lemma ConvertAllIsolatesFiles(jsonDir: string, mdDir: string, listing: seq<string>,
                                load1: string -> Loaded, load2: string -> Loaded,
                                render: Note -> Result<string, string>,
                                store1: (string, string) -> Option<IoError>,
                                store2: (string, string) -> Option<IoError>,
                                k: nat)
    requires k < |Selected(listing)|
    requires var name := Selected(listing)[k];
             load1(PathJoin(jsonDir, name)) == load2(PathJoin(jsonDir, name))
    requires var mdPath := PathJoin(mdDir, MarkdownName(Selected(listing)[k]));
             forall md :: store1(mdPath, md) == store2(mdPath, md)
    ensures var rs1 := ConvertAll(jsonDir, mdDir, listing, load1, render, store1);
            var rs2 := ConvertAll(jsonDir, mdDir, listing, load2, render, store2);
            k < |rs1| && k < |rs2| && rs1[k] == rs2[k]
  {
    ConvertAllReports(jsonDir, mdDir, listing, load1, render, store1);
    ConvertAllReports(jsonDir, mdDir, listing, load2, render, store2);
    var name := Selected(listing)[k];
    ConvertFileIsLocal(PathJoin(jsonDir, name), PathJoin(mdDir, MarkdownName(name)),
                       load1, load2, render, store1, store2);
  }

  /** The Markdown files a run leaves behind: each converted file's document at
      its path, a later conversion to the same path overwriting an earlier one. */
  function Written(rs: seq<Report>): map<string, string>
  {
    if rs == [] then map[]
    else
      var before := Written(rs[..|rs| - 1]);
      var last := rs[|rs| - 1];
      if last.Converted? then before[last.mdPath := last.markdown] else before
  }

  /** A path is written exactly when some file was converted to it, and it holds
      the document of the last such file. */
  lemma {:induction false} WrittenFiles(rs: seq<Report>)
    ensures forall p :: p in Written(rs) <==>
      exists k :: 0 <= k < |rs| && rs[k].Converted? && rs[k].mdPath == p
    ensures forall k :: (0 <= k < |rs| && rs[k].Converted? &&
              (forall j :: k < j < |rs| ==> !(rs[j].Converted? && rs[j].mdPath == rs[k].mdPath)))
              ==> rs[k].mdPath in Written(rs) && Written(rs)[rs[k].mdPath] == rs[k].markdown
  {
    if rs != [] {
      var init := rs[..|rs| - 1];
      WrittenFiles(init);
      forall k | 0 <= k < |init|
        ensures init[k] == rs[k]
      {
      }
    }
  }

  /** A run where one file decodes and renders and the other is not JSON writes
      exactly one Markdown file and reports the other as a decoding failure; a
      name without the `.json` suffix is skipped. */
  lemma OneGoodOneMalformed(jsonDir: string, mdDir: string,
                            load: string -> Loaded,
                            render: Note -> Result<string, string>,
                            store: (string, string) -> Option<IoError>,
                            note: Note)
    requires load(PathJoin(jsonDir, "good.json")) == Parsed(note)
    requires load(PathJoin(jsonDir, "bad.json")) == NotJson
    requires render(note).Ok?
    requires forall p, md :: store(p, md).None?
    ensures var rs := ConvertAll(jsonDir, mdDir, ["good.json", "bad.json", "notes.txt"], load, render, store);
            && rs == [Converted(PathJoin(mdDir, "good.md"), render(note).value),
                      DecodeFailed(PathJoin(jsonDir, "bad.json"))]
            && Written(rs).Keys == {PathJoin(mdDir, "good.md")}
  {
    ExampleReports(jsonDir, mdDir, load, render, store, note);
    WrittenOneOfTwo(Converted(PathJoin(mdDir, "good.md"), render(note).value),
                    DecodeFailed(PathJoin(jsonDir, "bad.json")));
  }

  lemma ExampleReports(jsonDir: string, mdDir: string,
                       load: string -> Loaded,
                       render: Note -> Result<string, string>,
                       store: (string, string) -> Option<IoError>,
                       note: Note)
    requires load(PathJoin(jsonDir, "good.json")) == Parsed(note)
    requires load(PathJoin(jsonDir, "bad.json")) == NotJson
    requires render(note).Ok?
    requires forall p, md :: store(p, md).None?
    ensures ConvertAll(jsonDir, mdDir, ["good.json", "bad.json", "notes.txt"], load, render, store)
         == [Converted(PathJoin(mdDir, "good.md"), render(note).value),
             DecodeFailed(PathJoin(jsonDir, "bad.json"))]
  {
    ExampleListing(jsonDir, mdDir, load, render, store);
    GoodReport(jsonDir, mdDir, load, render, store, note);
    BadReport(jsonDir, mdDir, load, render, store);
  }

  /** The example listing converts its two `.json` names, in order, and skips the third. */
  lemma ExampleListing(jsonDir: string, mdDir: string,
                       load: string -> Loaded,
                       render: Note -> Result<string, string>,
                       store: (string, string) -> Option<IoError>)
    ensures ConvertAll(jsonDir, mdDir, ["good.json", "bad.json", "notes.txt"], load, render, store)
         == [ProcessName(jsonDir, mdDir, "good.json", load, render, store),
             ProcessName(jsonDir, mdDir, "bad.json", load, render, store)]
  {
    var listing := ["good.json", "bad.json", "notes.txt"];
    SelectedExample();
    var rs := ConvertAll(jsonDir, mdDir, listing, load, render, store);
    ConvertAllReports(jsonDir, mdDir, listing, load, render, store);
    assert |rs| == 2;
    assert rs[0] == ProcessName(jsonDir, mdDir, "good.json", load, render, store);
    assert rs[1] == ProcessName(jsonDir, mdDir, "bad.json", load, render, store);
  }

  lemma GoodReport(jsonDir: string, mdDir: string,
                   load: string -> Loaded,
                   render: Note -> Result<string, string>,
                   store: (string, string) -> Option<IoError>,
                   note: Note)
    requires load(PathJoin(jsonDir, "good.json")) == Parsed(note)
    requires render(note).Ok?
    requires forall p, md :: store(p, md).None?
    ensures ProcessName(jsonDir, mdDir, "good.json", load, render, store)
         == Converted(PathJoin(mdDir, "good.md"), render(note).value)
  {
    GoodMarkdownName();
  }

  lemma BadReport(jsonDir: string, mdDir: string,
                  load: string -> Loaded,
                  render: Note -> Result<string, string>,
                  store: (string, string) -> Option<IoError>)
    requires load(PathJoin(jsonDir, "bad.json")) == NotJson
    ensures ProcessName(jsonDir, mdDir, "bad.json", load, render, store)
         == DecodeFailed(PathJoin(jsonDir, "bad.json"))
  {
  }

  lemma SelectedExample()
    ensures Selected(["good.json", "bad.json", "notes.txt"]) == ["good.json", "bad.json"]
  {
    var listing := ["good.json", "bad.json", "notes.txt"];
    assert IsJsonName("good.json") by { assert "good.json"[4..] == ".json"; }
    assert IsJsonName("bad.json") by { assert "bad.json"[3..] == ".json"; }
    assert !IsJsonName("notes.txt") by { assert "notes.txt"[4..][2] == 't'; }
    assert listing[1..] == ["bad.json", "notes.txt"];
    assert listing[1..][1..] == ["notes.txt"];
    assert listing[1..][1..][1..] == [];
  }

  lemma GoodMarkdownName()
    ensures MarkdownName("good.json") == "good.md"
  {
    assert "good"[0] != '.';
    MarkdownNameOrdinary("good");
    assert "good" + ".json" == "good.json";
  }

  lemma WrittenOneOfTwo(a: Report, b: Report)
    requires a.Converted? && !b.Converted?
    ensures Written([a, b]).Keys == {a.mdPath}
  {
    assert [a][..0] == [];
    assert Written([a]) == map[a.mdPath := a.markdown];
    assert [a, b][..1] == [a];
    assert Written([a, b]) == Written([a]);
  }
}
