/**
 * The driver (aap.py): validate the form, extract and clean every upload into
 * a dictionary keyed by file name, send one ranking request, and decide what to
 * show from its result. Rendering is not modelled; `st.stop()` is an early
 * `Halted` outcome and an uncaught exception a `Crashed` view.
 */
module App {
  import opened Wrappers
  import opened Strings
  import opened Normalize
  import opened Extraction
  import opened Dicts
  import opened Json
  import opened Ranking

  const MinJobDescriptionLength := 50
  const MaxFiles := 5

  const MissingKeyMessage := "\U{26A0}\U{FE0F} Please enter your API Key."
  const ShortJobDescriptionMessage := "\U{26A0}\U{FE0F} Please paste a valid Job Description."
  const NoFilesMessage := "\U{26A0}\U{FE0F} Please upload at least one resume."
  const TooManyFilesMessage := "\U{26A0}\U{FE0F} Limit is 5 resumes for this version."
  const NoTextMessage := "Could not extract text from any of the uploaded files."

  datatype Validation = Proceed | Halt(message: string)

  /** The four guards, in order; the first that fails alone decides the message. */
  function Validate(apiKey: string, jd: string, fileCount: nat): (v: Validation)
    ensures v == Proceed <==> apiKey != [] && |jd| >= MinJobDescriptionLength && 1 <= fileCount <= MaxFiles
    ensures apiKey == [] ==> v == Halt(MissingKeyMessage)
    ensures apiKey != [] && |jd| < MinJobDescriptionLength ==> v == Halt(ShortJobDescriptionMessage)
    ensures apiKey != [] && |jd| >= MinJobDescriptionLength && fileCount == 0 ==> v == Halt(NoFilesMessage)
    ensures apiKey != [] && |jd| >= MinJobDescriptionLength && fileCount > MaxFiles ==> v == Halt(TooManyFilesMessage)
  {
    if apiKey == [] then Halt(MissingKeyMessage)
    else if jd == [] || |jd| < MinJobDescriptionLength then Halt(ShortJobDescriptionMessage)
    else if fileCount == 0 then Halt(NoFilesMessage)
    else if fileCount > MaxFiles then Halt(TooManyFilesMessage)
    else Proceed
  }

  /** The boundaries: a job description of 49 characters is refused and one of 50 accepted; 0 and 6 files are refused, 1 and 5 accepted. */
  lemma ValidationBoundaries(apiKey: string, jd49: string, jd50: string)
    requires apiKey != [] && |jd49| == 49 && |jd50| == 50
    ensures Validate(apiKey, jd49, 1) == Halt(ShortJobDescriptionMessage)
    ensures Validate(apiKey, jd50, 1) == Proceed && Validate(apiKey, jd50, 5) == Proceed
    ensures Validate(apiKey, jd50, 0) == Halt(NoFilesMessage)
    ensures Validate(apiKey, jd50, 6) == Halt(TooManyFilesMessage)
  {
  }

  /** `text and not text.startswith("Error")`: the test an extracted text must pass to be stored. */
  predicate Stored(text: string)
  {
    text != [] && !StartsWith(text, "Error")
  }

  /** What the extraction loop keeps of one upload: its name and the text extracted from it. */
  datatype Extract = Extract(name: string, text: string)

  function Extractions(files: seq<Upload>): (xs: seq<Extract>)
    ensures |xs| == |files|
  {
    seq(|files|, i requires 0 <= i < |files| => Extract(files[i].name, ExtractedText(files[i])))
  }

  /** The dictionary the extraction loop has built after processing the extracts `xs`, in order. */
  function Gather(xs: seq<Extract>): (d: Dict)
    ensures d.Valid()
    decreases |xs|
  {
    if xs == [] then Empty
    else
      var x := xs[|xs| - 1];
      var prior := Gather(xs[..|xs| - 1]);
      if Stored(x.text) then Put(prior, x.name, CleanText(x.text)) else prior
  }

  /** The dictionary the extraction loop builds from the uploads. */
  function Collected(files: seq<Upload>): (d: Dict)
    ensures d.Valid()
  {
    Gather(Extractions(files))
  }

  /** The extraction loop: the dictionary is filled in place, one upload at a time. */
  method CollectResumes(files: seq<Upload>) returns (resumes: Dict)
    ensures resumes == Collected(files)
  {
    ghost var xs := Extractions(files);
    resumes := Empty;
    for i := 0 to |files|
      invariant resumes == Gather(xs[..i])
    {
      var text := ExtractText(files[i]);
      GatherStep(xs, i);
      assert xs[i] == Extract(files[i].name, text);
      if Stored(text) {
        resumes := Put(resumes, files[i].name, CleanText(text));
      }
    }
    assert xs[..|files|] == xs;
  }

  /** One iteration of the extraction loop. */
  lemma GatherStep(xs: seq<Extract>, i: nat)
    requires i < |xs|
    ensures Gather(xs[..i + 1])
        == if Stored(xs[i].text) then Put(Gather(xs[..i]), xs[i].name, CleanText(xs[i].text)) else Gather(xs[..i])
  {
    assert xs[..i + 1][..i] == xs[..i];
  }

  /** Extract `i` has name `k` and its text passes the storing test. */
  predicate StoredAt(xs: seq<Extract>, i: int, k: string)
  {
    0 <= i < |xs| && xs[i].name == k && Stored(xs[i].text)
  }

  /** The value stored under a name is the cleaned text of the LAST extract of that name whose text was stored. */
  lemma {:induction false} GatherLastWins(xs: seq<Extract>, i: nat)
    requires i < |xs| && Stored(xs[i].text)
    requires forall j :: i < j < |xs| ==> !StoredAt(xs, j, xs[i].name)
    ensures xs[i].name in Gather(xs).entries
    ensures Gather(xs).entries[xs[i].name] == CleanText(xs[i].text)
    decreases |xs|
  {
    var init := xs[..|xs| - 1];
    if i < |xs| - 1 {
      forall j | i < j < |init| ensures !StoredAt(init, j, init[i].name) {
        assert !StoredAt(xs, j, xs[i].name);
      }
      GatherLastWins(init, i);
      assert !StoredAt(xs, |xs| - 1, xs[i].name);
    }
  }

  /** The names whose texts were stored, in upload order (with repeats). */
  function StoredNames(xs: seq<Extract>): seq<string>
    decreases |xs|
  {
    if xs == [] then []
    else
      var x := xs[|xs| - 1];
      StoredNames(xs[..|xs| - 1]) + (if Stored(x.text) then [x.name] else [])
  }

  /** `names` without repeats, each kept at its first occurrence. */
  function FirstOccurrences(names: seq<string>): seq<string>
    decreases |names|
  {
    if names == [] then []
    else
      var prior := FirstOccurrences(names[..|names| - 1]);
      var last := names[|names| - 1];
      if last in prior then prior else prior + [last]
  }

  /** The dictionary iterates its keys in the order in which each name was first stored. */
  lemma {:induction false} GatherOrder(xs: seq<Extract>)
    ensures Gather(xs).order == FirstOccurrences(StoredNames(xs))
    decreases |xs|
  {
    if xs != [] {
      var init := xs[..|xs| - 1];
      var x := xs[|xs| - 1];
      GatherOrder(init);
      if Stored(x.text) {
        var names := StoredNames(xs);
        assert names == StoredNames(init) + [x.name];
        assert names[..|names| - 1] == StoredNames(init);
      } else {
        assert StoredNames(xs) == StoredNames(init) + [];
        assert StoredNames(init) + [] == StoredNames(init);
      }
    }
  }

  /** A name occurs among the stored names exactly when some extract of that name had its text stored. */
  lemma {:induction false} StoredNamesMembers(xs: seq<Extract>, k: string)
    ensures k in StoredNames(xs) <==> exists i :: StoredAt(xs, i, k)
    decreases |xs|
  {
    if xs != [] {
      var n := |xs| - 1;
      var init := xs[..n];
      StoredNamesMembers(init, k);
      assert StoredNames(xs) == StoredNames(init) + (if Stored(xs[n].text) then [xs[n].name] else []);
      if exists i :: StoredAt(init, i, k) {
        var i :| StoredAt(init, i, k);
        assert init[i] == xs[i];
        assert StoredAt(xs, i, k);
      }
      if exists i :: StoredAt(xs, i, k) {
        var i :| StoredAt(xs, i, k);
        if i < n {
          assert init[i] == xs[i];
          assert StoredAt(init, i, k);
        } else {
          assert StoredNames(xs)[|StoredNames(init)|] == k;
        }
      }
      if k in StoredNames(xs) && k !in StoredNames(init) {
        assert StoredAt(xs, n, k);
      }
    }
  }

  /** Dropping repeats loses no name and adds none. */
  lemma {:induction false} FirstOccurrencesMembers(names: seq<string>, x: string)
    ensures x in FirstOccurrences(names) <==> x in names
    decreases |names|
  {
    if names != [] {
      var init := names[..|names| - 1];
      FirstOccurrencesMembers(init, x);
      assert names == init + [names[|names| - 1]];
    }
  }

  /** A name is a key of the dictionary exactly when some extract of that name had its text stored. */
  lemma GatherKeys(xs: seq<Extract>, k: string)
    ensures k in Gather(xs).entries <==> exists i :: StoredAt(xs, i, k)
  {
    GatherOrder(xs);
    FirstOccurrencesMembers(StoredNames(xs), k);
    StoredNamesMembers(xs, k);
  }

  /** Nothing is stored exactly when every extracted text fails the storing test. */
  lemma NothingGatheredIff(xs: seq<Extract>)
    ensures Gather(xs).entries == map[] <==> forall i :: 0 <= i < |xs| ==> !Stored(xs[i].text)
  {
    var d := Gather(xs);
    if d.entries != map[] {
      var k :| k in d.entries;
      GatherKeys(xs, k);
    }
    if exists i :: 0 <= i < |xs| && Stored(xs[i].text) {
      var i :| 0 <= i < |xs| && Stored(xs[i].text);
      GatherKeys(xs, xs[i].name);
      assert StoredAt(xs, i, xs[i].name);
    }
  }

  /** A whitespace-only text passes the storing test and is stored as `""`, because cleaning comes after the test. */
  lemma WhitespaceOnlyStoredEmpty(xs: seq<Extract>, i: nat)
    requires i < |xs| && xs[i].text != [] && AllWhitespace(xs[i].text)
    requires forall j :: i < j < |xs| ==> !StoredAt(xs, j, xs[i].name)
    ensures xs[i].name in Gather(xs).entries
    ensures Gather(xs).entries[xs[i].name] == ""
  {
    WhitespaceIsNoError(xs[i].text);
    GatherLastWins(xs, i);
    CleanTextEmptyIff(xs[i].text);
  }

  lemma WhitespaceIsNoError(t: string)
    requires t != [] && AllWhitespace(t)
    ensures Stored(t)
  {
    assert IsWhitespace(t[0]);
  }

  /** The text of an upload whose parser raises always starts with "Error", so it is never stored. */
  lemma ParseFailureNeverStored(f: Upload)
    requires ParseFails(f)
    ensures !Stored(ExtractedText(f))
  {
    ParseFailureReported(f);
    ErrorTextNotStored(ExtractedText(f));
  }

  lemma ErrorTextNotStored(t: string)
    requires StartsWith(t, ErrorPrefix)
    ensures !Stored(t)
  {
    assert t[..5] == ErrorPrefix[..5];
  }

  /** When every upload's parser raises, nothing is stored. */
  lemma AllParseFailuresCollectNothing(files: seq<Upload>)
    requires forall i :: 0 <= i < |files| ==> ParseFails(files[i])
    ensures Collected(files).entries == map[]
  {
    var xs := Extractions(files);
    forall i | 0 <= i < |xs| ensures !Stored(xs[i].text) {
      ParseFailureNeverStored(files[i]);
    }
    NothingGatheredIff(xs);
  }

  /** A genuine résumé whose text begins with "Error" is dropped like a failed extraction. */
  lemma ResumeStartingWithErrorDropped(f: Upload)
    requires f.name == "cv.docx" && f.docx == Success(["Error-handling specialist"])
    ensures !Stored(ExtractedText(f)) && !ParseFails(f)
  {
    assert EndsWith(f.name, DocxSuffix);
    assert ExtractedText(f) == "Error-handling specialist";
    assert ExtractedText(f)[..5] == "Error";
  }

  /** At the level of uploads: a name is a key exactly when some upload of that name yielded a storable text. */
  lemma CollectedKeys(files: seq<Upload>, k: string)
    ensures k in Collected(files).entries
        <==> exists i :: 0 <= i < |files| && files[i].name == k && Stored(ExtractedText(files[i]))
  {
    var xs := Extractions(files);
    GatherKeys(xs, k);
    if exists i :: StoredAt(xs, i, k) {
      var i :| StoredAt(xs, i, k);
      assert files[i].name == k && Stored(ExtractedText(files[i]));
    }
    if exists i :: 0 <= i < |files| && files[i].name == k && Stored(ExtractedText(files[i])) {
      var i :| 0 <= i < |files| && files[i].name == k && Stored(ExtractedText(files[i]));
      assert StoredAt(xs, i, k);
    }
  }

  /** Two words separated by one whitespace character clean to the two words separated by one space. */
  lemma CleanTwoWords(u: string, c: char, v: string)
    requires u != [] && v != [] && IsWhitespace(c)
    requires forall i :: 0 <= i < |u| ==> !IsWhitespace(u[i])
    requires forall i :: 0 <= i < |v| ==> !IsWhitespace(v[i])
    ensures CleanText(u + [c] + v) == u + " " + v
  {
    CollapseTwoWords(u, c, v);
    var r := u + " " + v;
    assert r[0] == u[0] && r[|r| - 1] == v[|v| - 1];
    assert Trimmed(r);
  }

  lemma CollapseTwoWords(u: string, c: char, v: string)
    requires v != [] && IsWhitespace(c)
    requires forall i :: 0 <= i < |u| ==> !IsWhitespace(u[i])
    requires forall i :: 0 <= i < |v| ==> !IsWhitespace(v[i])
    ensures CollapseRuns(u + [c] + v) == u + " " + v
  {
    var w := [c] + v;
    assert w[0] == c && w[1..] == v;
    assert TrimStart(w) == TrimStart(v);
    TrimStartNoop(v);
    WordCollapsesToItself(v);
    assert u + [c] + v == u + w;
    CollapseRunsAfterWord(u, w);
  }

  lemma WordCollapsesToItself(v: string)
    requires forall i :: 0 <= i < |v| ==> !IsWhitespace(v[i])
    ensures CollapseRuns(v) == v
  {
    CollapseRunsWord(v, |v|);
    assert v[..|v|] == v && v[|v|..] == [];
    assert v + [] == v;
  }

  /** A Word file of two single-word paragraphs (the first not starting with "Error") is stored as the two words joined by one space. */
  lemma DocxTwoParagraphs(f: Upload, u: string, v: string)
    requires EndsWith(f.name, DocxSuffix) && f.docx == Success([u, v])
    requires u != [] && v != [] && !StartsWith(u, "Error")
    requires forall i :: 0 <= i < |u| ==> !IsWhitespace(u[i])
    requires forall i :: 0 <= i < |v| ==> !IsWhitespace(v[i])
    ensures Stored(ExtractedText(f)) && CleanText(ExtractedText(f)) == u + " " + v
  {
    JoinTwo(u, v);
    StoredBeforeNewline(u, v);
    CleanTwoWords(u, '\n', v);
  }

  lemma JoinTwo(u: string, v: string)
    ensures Join([u, v], "\n") == u + ['\n'] + v
  {
    assert [u, v][1..] == [v];
  }

  lemma StoredBeforeNewline(u: string, v: string)
    requires u != [] && !StartsWith(u, "Error")
    ensures Stored(u + ['\n'] + v)
  {
    var t := u + ['\n'] + v;
    if |u| >= 5 {
      assert t[..5] == u[..5];
    } else if |t| >= 5 {
      assert t[..5][|u|] == '\n' != "Error"[|u|];
    }
  }

  /** A PDF whose first page reads "Alpha " and whose second page has no text is stored as "Alpha". */
  lemma PdfExample(f: Upload)
    requires f.name == "cv.pdf" && f.pdf == Success([Text("Alpha "), NoText])
    ensures Stored(ExtractedText(f)) && CleanText(ExtractedText(f)) == "Alpha"
  {
    assert !EndsWith(f.name, DocxSuffix) && EndsWith(f.name, PdfSuffix);
    var pages := [Text("Alpha "), NoText];
    var first := [Text("Alpha ")];
    assert PdfText([]) == Success("");
    assert first[..|first| - 1] == [];
    assert "" + "Alpha " == "Alpha ";
    assert PdfText(first) == Success("Alpha ");
    assert pages[..|pages| - 1] == first;
    assert "Alpha " + "" == "Alpha ";
    assert PdfText(pages) == Success("Alpha ");
    var t := ExtractedText(f);
    assert t == "Alpha ";
    assert t[..5][0] == 'A';
    CleanAlpha();
  }

  lemma CleanAlpha()
    ensures CleanText("Alpha ") == "Alpha"
  {
    var alpha := "Alpha";
    assert forall i :: 0 <= i < |alpha| ==> !IsWhitespace(alpha[i]);
    assert "Alpha " == alpha + " ";
    CollapseRunsAfterWord(alpha, " ");
    assert TrimStart(" ") == [];
    assert CollapseRuns("Alpha ") == "Alpha ";
    StripPadded([], alpha, " ");
  }

  /** What the leaderboard test `isinstance(data, list) and "filename" in data[0]` does. */
  datatype Gate = Pass | Reject | Raise(exception: string)

  const IndexError := "IndexError"

  function LeaderboardGate(data: Json): (g: Gate)
    ensures g == Pass <==> data.JArray? && data.items != [] && In("filename", data.items[0]) == Success(true)
    ensures !data.JArray? ==> g == Reject
    ensures data == JArray([]) ==> g == Raise(IndexError)
    ensures data.JArray? && data.items != [] && (data.items[0].JNull? || data.items[0].JBool? || data.items[0].JNumber?)
        ==> g == Raise(TypeError)
  {
    if !data.JArray? then Reject
    else if data.items == [] then Raise(IndexError)
    else
      match In("filename", data.items[0])
      case Success(found) => if found then Pass else Reject
      case Failure(e) => Raise(e)
  }

  /** The failure sentinel of the ranking request passes the leaderboard test, since its record has a "filename" key. */
  lemma SentinelPassesGate(message: string)
    ensures LeaderboardGate(Sentinel(message)) == Pass
  {
  }

  /** The preferred column order of the leaderboard table. */
  const DisplayOrder := ["rank", "match_percentage", "candidate_name", "filename", "skills_match", "missing_skills", "reason"]

  /** Every element of the list is a dict. */
  predicate AllRecords(rows: seq<Json>)
  {
    forall i | 0 <= i < |rows| :: rows[i].JObject?
  }

  /**
   * The string column labels of `pd.DataFrame(rows)`. pandas chooses its path from the first
   * element: a list of dicts gives every key of every record, and anything else gives integer
   * labels only, which are not strings.
   */
  function PresentColumns(rows: seq<Json>): (r: set<string>)
    ensures rows != [] && rows[0].JObject? ==>
      forall k :: k in r <==> exists i :: 0 <= i < |rows| && rows[i].JObject? && k in rows[i].fields
    ensures rows == [] || !rows[0].JObject? ==> r == {}
  {
    if rows == [] || !rows[0].JObject? then {}
    else set i, k | 0 <= i < |rows| && rows[i].JObject? && k in rows[i].fields :: k
  }

  predicate IsSubsequence(a: seq<string>, b: seq<string>)
    decreases |b|
  {
    if a == [] then true
    else if b == [] then false
    else if a[0] == b[0] then IsSubsequence(a[1..], b[1..])
    else IsSubsequence(a, b[1..])
  }

  /** `[c for c in cols if c in present]`. */
  function KeepPresent(cols: seq<string>, present: set<string>): seq<string>
  {
    if cols == [] then []
    else if cols[0] in present then [cols[0]] + KeepPresent(cols[1..], present)
    else KeepPresent(cols[1..], present)
  }

  /** The filter keeps exactly the listed columns that are present, in the listed order. */
  lemma {:induction false} KeepPresentSpec(cols: seq<string>, present: set<string>)
    ensures forall c :: c in KeepPresent(cols, present) <==> c in cols && c in present
    ensures IsSubsequence(KeepPresent(cols, present), cols)
    ensures KeepPresent(cols, present) == [] <==> forall c :: c in cols ==> c !in present
    decreases |cols|
  {
    if cols != [] {
      var r := KeepPresent(cols[1..], present);
      KeepPresentSpec(cols[1..], present);
      forall c ensures c in cols <==> c == cols[0] || c in cols[1..] {
        assert cols == [cols[0]] + cols[1..];
      }
      if cols[0] in present {
        assert ([cols[0]] + r)[1..] == r;
      }
    }
  }

  /** A table of one record has exactly that record's keys as columns. */
  lemma PresentColumnsSingle(row: Json)
    requires row.JObject?
    ensures PresentColumns([row]) == row.fields.Keys
  {
    forall k | k in row.fields.Keys ensures k in PresentColumns([row]) {
      assert [row][0] == row;
    }
  }

  /** The sentinel shows as a one-row table with just the filename and reason columns. */
  lemma SentinelColumns(message: string)
    ensures KeepPresent(DisplayOrder, PresentColumns(Sentinel(message).items)) == ["filename", "reason"]
  {
    var row := Sentinel(message).items[0];
    assert Sentinel(message).items == [row];
    PresentColumnsSingle(row);
    assert row.fields.Keys == {"filename", "reason"};
    KeepFilenameReason();
  }

  lemma KeepFilenameReason()
    ensures KeepPresent(DisplayOrder, {"filename", "reason"}) == ["filename", "reason"]
  {
    var p: set<string> := {"filename", "reason"};
    var d := DisplayOrder;
    assert |d[0]| == 4 && |d[1]| == 16 && |d[2]| == 14 && |d[4]| == 12 && |d[5]| == 14;
    KeepFourthAndLast(d, p);
  }

  /** Keeping from seven columns of which only the fourth and the last are present. */
  lemma KeepFourthAndLast(d: seq<string>, p: set<string>)
    requires |d| == 7
    requires d[0] !in p && d[1] !in p && d[2] !in p && d[4] !in p && d[5] !in p
    requires d[3] in p && d[6] in p
    ensures KeepPresent(d, p) == [d[3], d[6]]
  {
    assert KeepPresent(d[6..], p) == [d[6]] by {
      assert d[6..][1..] == [];
    }
    assert KeepPresent(d[4..], p) == [d[6]] by {
      assert d[4..][1..] == d[5..] && d[5..][1..] == d[6..];
    }
    assert KeepPresent(d[3..], p) == [d[3], d[6]] by {
      assert d[3..][1..] == d[4..];
    }
    assert KeepPresent(d[2..], p) == [d[3], d[6]] by {
      assert d[2..][1..] == d[3..];
    }
    assert KeepPresent(d[1..], p) == [d[3], d[6]] by {
      assert d[1..][1..] == d[2..];
    }
  }

  /** What the operator sees once the ranking result is back. */
  datatype View =
    | Leaderboard(rows: seq<Json>, columns: seq<string>)
    | FailureNotice
    | Crashed(exception: string)

  const AttributeError := "AttributeError"

  /**
   * The leaderboard shows every row, under the preferred columns the table has, in the preferred
   * order. A list of dicts in which a later element is not a dict makes `pd.DataFrame` raise
   * `AttributeError` when it asks that element for its keys.
   */
  function Present(data: Json): (v: View)
    ensures v.Leaderboard? <==>
      (data.JArray? && data.items != [] && In("filename", data.items[0]) == Success(true)
       && (data.items[0].JObject? ==> AllRecords(data.items)))
    ensures v == FailureNotice <==> !data.JArray? || (data.items != [] && In("filename", data.items[0]) == Success(false))
    ensures v == Crashed(AttributeError) <==>
      (data.JArray? && data.items != [] && data.items[0].JObject?
       && "filename" in data.items[0].fields && !AllRecords(data.items))
    ensures v.Leaderboard? ==> v.rows == data.items
    ensures v.Leaderboard? ==> forall c :: c in v.columns <==> c in DisplayOrder && c in PresentColumns(data.items)
    ensures v.Leaderboard? && !data.items[0].JObject? ==> v.columns == []
    ensures v.Leaderboard? ==> IsSubsequence(v.columns, DisplayOrder)
  {
    match LeaderboardGate(data)
    case Pass =>
      if data.items[0].JObject? && !AllRecords(data.items) then Crashed(AttributeError)
      else
        KeepPresentSpec(DisplayOrder, PresentColumns(data.items));
        Leaderboard(data.items, KeepPresent(DisplayOrder, PresentColumns(data.items)))
    case Reject => FailureNotice
    case Raise(e) => Crashed(e)
  }

  /** A reply whose first record is a dict with "filename" and whose later element is not a dict crashes before any table is drawn. */
  lemma RecordThenNonRecordCrashes(first: Json, rest: seq<Json>)
    requires first.JObject? && "filename" in first.fields
    requires rest != [] && !rest[0].JObject?
    ensures Present(JArray([first] + rest)) == Crashed(AttributeError)
  {
    var items := [first] + rest;
    assert items[1] == rest[0];
  }

  /** A reply whose first element is a string mentioning "filename" is a table without any named column. */
  lemma StringFirstRecordNoColumns(text: string, rest: seq<Json>)
    requires Contains(text, "filename")
    ensures Present(JArray([JString(text)] + rest)) == Leaderboard([JString(text)] + rest, [])
  {
    var items := [JString(text)] + rest;
    assert items[0] == JString(text);
    assert PresentColumns(items) == {};
  }

  datatype RunOutcome =
    | Halted(message: string)
    | Ranked(prompt: string, result: Json, view: View)

  /** A failed request or an undecodable reply is shown as a one-row leaderboard holding the error, not as the failure notice. */
  lemma FailureShownAsLeaderboard(prompt: string, generate: string -> Response, decode: string -> Decoded)
    requires generate(prompt).RequestFailed?
          || decode(CleanResponse(generate(prompt).text)).DecodeFailed?
    ensures var r := RankingResult(prompt, generate, decode);
      && r.JArray? && |r.items| == 1
      && Present(r) == Leaderboard(r.items, ["filename", "reason"])
  {
    var m := if generate(prompt).RequestFailed? then generate(prompt).message
             else decode(CleanResponse(generate(prompt).text)).message;
    assert RankingResult(prompt, generate, decode) == Sentinel(m);
    SentinelPassesGate(m);
    SentinelColumns(m);
  }

  /** One press of the "Rank Candidates" button. */
  method Run(apiKey: string, jd: string, files: seq<Upload>, generate: string -> Response, decode: string -> Decoded)
    returns (outcome: RunOutcome)
    ensures Validate(apiKey, jd, |files|).Halt? ==> outcome == Halted(Validate(apiKey, jd, |files|).message)
    ensures Validate(apiKey, jd, |files|) == Proceed && Collected(files).entries == map[]
        ==> outcome == Halted(NoTextMessage)
    ensures Validate(apiKey, jd, |files|) == Proceed && Collected(files).entries != map[]
        ==> var prompt := Prompt(Collected(files), jd);
            var result := RankingResult(prompt, generate, decode);
            outcome == Ranked(prompt, result, Present(result))
  {
    var v := Validate(apiKey, jd, |files|);
    if v.Halt? {
      return Halted(v.message);
    }
    var resumes := CollectResumes(files);
    if resumes.entries == map[] {
      return Halted(NoTextMessage);
    }
    var result := RankResumes(resumes, jd, generate, decode);
    outcome := Ranked(Prompt(resumes, jd), result, Present(result));
  }
}
