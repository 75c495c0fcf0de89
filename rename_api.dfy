/**
 * The `POST` handler of the rename-simulation endpoint
 * (apps/utils/app/api/rename-files/route.ts). It validates the three body
 * parameters, walks the submitted file records in order and, for every record
 * whose `oldExtension` equals the requested one, reports a simulated
 * successful rename whose new name comes from `name.replace(".old", ".new")`.
 * A record that makes the loop body throw adds one error and the loop goes on,
 * unless the catch block throws as well, which ends the request with 500;
 * the response carries the results, the errors and their counts.
 */
module RenameApi {
  import opened Wrappers
  import opened JsString

  /**
   * The `name` property of a submitted record: a string, any other JSON
   * value a template literal can render, or an object it cannot render
   * (one whose `toString` and `valueOf` give no primitive, as `{"toString": 0}`).
   */
  datatype NameValue =
    | Text(s: string)
    | NonText(shown: string)  // `shown` is how a template literal renders the value
    | Unprintable

  /**
   * One element of the `files` array: JSON `null`, or a value whose
   * `oldExtension` property is a string (`Some`) or is not (`None`).
   */
  datatype FileEntry =
    | NullEntry
    | Entry(name: NameValue, oldExtension: Option<string>)

  /**
   * The destructured JSON body. A field is `None` when it is absent or holds
   * a falsy value other than "" (`null`, `false`, `0`), and `files` also when
   * it is not an array. Any valid JSON other than `null` (an object, an
   * array, a number, a string) destructures without throwing.
   */
  datatype Request = Request(oldExtension: Option<string>, newExtension: Option<string>, files: Option<seq<FileEntry>>)

  datatype RenameResult = RenameResult(oldName: string, newName: string, success: bool)

  /** The per-file error string, of which the model keeps the rendered file name. */
  datatype FileError = FileError(shownName: string)

  datatype Summary = Summary(total: nat, successful: nat, failed: nat)

  datatype Response =
    | Failed(status: nat, error: string)
    | Succeeded(results: seq<RenameResult>, errors: seq<FileError>, summary: Summary, message: string)
  {
    /** The HTTP status of the response (`NextResponse.json` defaults to 200). */
    function Status(): nat {
      if Failed? then status else 200
    }
  }

  const MissingParameters: string := "缺少必要参数"
  const InternalError: string := "服务器内部错误"
  const ScriptNotice: string := "由于浏览器安全限制，文件重命名操作需要下载脚本在本地执行。请使用下载的脚本文件来实际重命名文件。"

  /** `oldExtension` and `newExtension` are non-empty strings and `files` is an array. */
  predicate HasParameters(req: Request) {
    && req.oldExtension.Some? && req.oldExtension.value != ""
    && req.newExtension.Some? && req.newExtension.value != ""
    && req.files.Some?
  }

  /** `file.oldExtension === oldExtension` (strict, case-sensitive). */
  predicate Matches(f: FileEntry, oldExt: string) {
    f.Entry? && f.oldExtension == Some(oldExt)
  }

  /** `name.replace(`.${oldExt}`, `.${newExt}`)`. */
  function NewName(name: string, oldExt: string, newExt: string): string {
    ReplaceFirst(name, "." + oldExt, "." + newExt)
  }

  /** What one record contributes to `results`. */
  function ResultStep(f: FileEntry, oldExt: string, newExt: string): seq<RenameResult> {
    if Matches(f, oldExt) && f.name.Text? then [RenameResult(f.name.s, NewName(f.name.s, oldExt, newExt), true)] else []
  }

  /** What one record contributes to `errors`: a matching record whose name has no `replace`. */
  function ErrorStep(f: FileEntry, oldExt: string): seq<FileError> {
    if Matches(f, oldExt) && f.name.NonText? then [FileError(f.name.shown)] else []
  }

  /** `results` after the loop has visited `files`, in visiting order. */
  function ResultsOf(files: seq<FileEntry>, oldExt: string, newExt: string): seq<RenameResult>
    decreases |files|
  {
    if |files| == 0 then []
    else ResultsOf(files[..|files| - 1], oldExt, newExt) + ResultStep(files[|files| - 1], oldExt, newExt)
  }

  /** `errors` after the loop has visited `files`, in visiting order. */
  function ErrorsOf(files: seq<FileEntry>, oldExt: string): seq<FileError>
    decreases |files|
  {
    if |files| == 0 then []
    else ErrorsOf(files[..|files| - 1], oldExt) + ErrorStep(files[|files| - 1], oldExt)
  }

  /**
   * Visiting `f` throws in the loop body and again in its catch block: a
   * `null` record (reading `null.oldExtension`, then `null.name`), or a
   * matching record whose name has no `replace` and cannot be rendered into
   * the error text.
   */
  predicate Throws(f: FileEntry, oldExt: string) {
    f.NullEntry? || (Matches(f, oldExt) && f.name.Unprintable?)
  }

  /** Some record throws past the per-file catch, so the request ends in the outer catch. */
  predicate Aborts(files: seq<FileEntry>, oldExt: string) {
    exists j | 0 <= j < |files| :: Throws(files[j], oldExt)
  }

  /** The response to a body (`None`: the body is not valid JSON, or is JSON `null`). */
  function PostSpec(body: Option<Request>): Response {
    if body.None? then Failed(500, InternalError)
    else if !HasParameters(body.value) then Failed(400, MissingParameters)
    else
      var oldExt, newExt, files := body.value.oldExtension.value, body.value.newExtension.value, body.value.files.value;
      if Aborts(files, oldExt) then Failed(500, InternalError)
      else
        var results, errors := ResultsOf(files, oldExt, newExt), ErrorsOf(files, oldExt);
        Succeeded(results, errors, Summary(|files|, |results|, |errors|), ScriptNotice)
  }

  /** The handler: validation, then one pass over `files` appending to `results` and `errors`. */
  method Post(body: Option<Request>) returns (resp: Response)
    ensures resp == PostSpec(body)
    ensures resp.Status() == 400 <==> body.Some? && !HasParameters(body.value)
    ensures resp.Status() == 400 ==> resp == Failed(400, MissingParameters)
  {
    BadRequestOnlyForMissingParameters(body);
    if body.None? {
      return Failed(500, InternalError);
    }
    var req := body.value;
    if !HasParameters(req) {
      return Failed(400, MissingParameters);
    }
    var oldExt, newExt, files := req.oldExtension.value, req.newExtension.value, req.files.value;
    var results: seq<RenameResult> := [];
    var errors: seq<FileError> := [];
    var i := 0;
    while i < |files|
      invariant 0 <= i <= |files|
      invariant results == ResultsOf(files[..i], oldExt, newExt)
      invariant errors == ErrorsOf(files[..i], oldExt)
      invariant forall j :: 0 <= j < i ==> !Throws(files[j], oldExt)
    {
      var file := files[i];
      if file.NullEntry? {
        assert Aborts(files, oldExt) by {
          assert Throws(files[i], oldExt);
        }
        return Failed(500, InternalError);
      }
      OneMoreRecord(files, i, oldExt, newExt);
      if file.oldExtension == Some(oldExt) {
        match file.name
        case Text(name) =>
          results := results + [RenameResult(name, NewName(name, oldExt, newExt), true)];
        case NonText(shown) =>
          errors := errors + [FileError(shown)];
        case Unprintable =>
          assert Aborts(files, oldExt) by {
            assert Throws(files[i], oldExt);
          }
          return Failed(500, InternalError);
      }
      i := i + 1;
    }
    assert files[..i] == files;
    resp := Succeeded(results, errors, Summary(|files|, |results|, |errors|), ScriptNotice);
  }

  /** Only missing parameters are answered 400, and always with the same message. */
  lemma BadRequestOnlyForMissingParameters(body: Option<Request>)
    ensures PostSpec(body).Status() == 400 <==> body.Some? && !HasParameters(body.value)
    ensures PostSpec(body).Status() == 400 ==> PostSpec(body) == Failed(400, MissingParameters)
  {
  }

  /** Visiting one more record appends what that record contributes. */
  lemma OneMoreRecord(files: seq<FileEntry>, i: nat, oldExt: string, newExt: string)
    requires i < |files|
    ensures ResultsOf(files[..i + 1], oldExt, newExt) == ResultsOf(files[..i], oldExt, newExt) + ResultStep(files[i], oldExt, newExt)
    ensures ErrorsOf(files[..i + 1], oldExt) == ErrorsOf(files[..i], oldExt) + ErrorStep(files[i], oldExt)
  {
    assert files[..i + 1][..i] == files[..i];
  }

  // ---------------------------------------------------------------------
  // Properties of the loop's outcome
  // ---------------------------------------------------------------------

  /** The results of consecutive runs of records are concatenated: order is kept. */
  lemma {:induction false} ResultsOfAppend(a: seq<FileEntry>, b: seq<FileEntry>, oldExt: string, newExt: string)
    ensures ResultsOf(a + b, oldExt, newExt) == ResultsOf(a, oldExt, newExt) + ResultsOf(b, oldExt, newExt)
    decreases |b|
  {
    if |b| == 0 {
      assert a + b == a;
    } else {
      var b' := b[..|b| - 1];
      assert (a + b)[..|a + b| - 1] == a + b';
      assert (a + b)[|a + b| - 1] == b[|b| - 1];
      ResultsOfAppend(a, b', oldExt, newExt);
    }
  }

  /** The errors of consecutive runs of records are concatenated. */
  lemma {:induction false} ErrorsOfAppend(a: seq<FileEntry>, b: seq<FileEntry>, oldExt: string)
    ensures ErrorsOf(a + b, oldExt) == ErrorsOf(a, oldExt) + ErrorsOf(b, oldExt)
    decreases |b|
  {
    if |b| == 0 {
      assert a + b == a;
    } else {
      var b' := b[..|b| - 1];
      assert (a + b)[..|a + b| - 1] == a + b';
      assert (a + b)[|a + b| - 1] == b[|b| - 1];
      ErrorsOfAppend(a, b', oldExt);
    }
  }

  /** What a single matching record with a non-string name contributes. */
  lemma NonTextRecordContributes(shown: string, oldExt: string, newExt: string)
    ensures ResultsOf([Entry(NonText(shown), Some(oldExt))], oldExt, newExt) == []
    ensures ErrorsOf([Entry(NonText(shown), Some(oldExt))], oldExt) == [FileError(shown)]
  {
    var bad := [Entry(NonText(shown), Some(oldExt))];
    assert bad[..0] == [];
  }

  /**
   * A matching record whose name is not a string adds no result, and the
   * records after it are still processed.
   */
  lemma FailingRecordAddsNoResult(a: seq<FileEntry>, shown: string, b: seq<FileEntry>, oldExt: string, newExt: string)
    ensures ResultsOf(a + [Entry(NonText(shown), Some(oldExt))] + b, oldExt, newExt)
         == ResultsOf(a, oldExt, newExt) + ResultsOf(b, oldExt, newExt)
  {
    var bad := [Entry(NonText(shown), Some(oldExt))];
    NonTextRecordContributes(shown, oldExt, newExt);
    ResultsOfAppend(a + bad, b, oldExt, newExt);
    ResultsOfAppend(a, bad, oldExt, newExt);
    var ra := ResultsOf(a, oldExt, newExt);
    assert ra + [] == ra;
  }

  /** A matching record whose name is not a string adds exactly one error, in its place. */
  lemma FailingRecordAddsOneError(a: seq<FileEntry>, shown: string, b: seq<FileEntry>, oldExt: string)
    ensures ErrorsOf(a + [Entry(NonText(shown), Some(oldExt))] + b, oldExt)
         == ErrorsOf(a, oldExt) + [FileError(shown)] + ErrorsOf(b, oldExt)
  {
    var bad := [Entry(NonText(shown), Some(oldExt))];
    NonTextRecordContributes(shown, oldExt, "");
    ErrorsOfAppend(a + bad, b, oldExt);
    ErrorsOfAppend(a, bad, oldExt);
  }

  /**
   * Every result is a successful rename of a matching record with a string
   * name, reported under that name.
   */
  lemma {:induction false} ResultsAreMatchingRecords(files: seq<FileEntry>, oldExt: string, newExt: string)
    ensures forall k :: 0 <= k < |ResultsOf(files, oldExt, newExt)| ==>
              var r := ResultsOf(files, oldExt, newExt)[k];
              r.success && r.newName == NewName(r.oldName, oldExt, newExt) &&
              exists j :: 0 <= j < |files| && Matches(files[j], oldExt) && files[j].name == Text(r.oldName)
    decreases |files|
  {
    if |files| > 0 {
      var init := files[..|files| - 1];
      var ri, step := ResultsOf(init, oldExt, newExt), ResultStep(files[|files| - 1], oldExt, newExt);
      assert ResultsOf(files, oldExt, newExt) == ri + step;
      ResultsAreMatchingRecords(init, oldExt, newExt);
      forall k | 0 <= k < |ri + step|
        ensures var r: RenameResult := (ri + step)[k];
                exists j :: 0 <= j < |files| && Matches(files[j], oldExt) && files[j].name == Text(r.oldName)
      {
        if k < |ri| {
          var j :| 0 <= j < |init| && Matches(init[j], oldExt) && init[j].name == Text(ri[k].oldName);
          assert files[j] == init[j];
        } else {
          assert Matches(files[|files| - 1], oldExt);
        }
      }
    }
  }

  /** Every matching record with a string name has its result. */
  lemma {:induction false} MatchingRecordsHaveResults(files: seq<FileEntry>, oldExt: string, newExt: string)
    ensures forall j :: 0 <= j < |files| && Matches(files[j], oldExt) && files[j].name.Text? ==>
              RenameResult(files[j].name.s, NewName(files[j].name.s, oldExt, newExt), true) in ResultsOf(files, oldExt, newExt)
    decreases |files|
  {
    if |files| > 0 {
      var init := files[..|files| - 1];
      var ri, step := ResultsOf(init, oldExt, newExt), ResultStep(files[|files| - 1], oldExt, newExt);
      assert ResultsOf(files, oldExt, newExt) == ri + step;
      MatchingRecordsHaveResults(init, oldExt, newExt);
      forall j | 0 <= j < |files| && Matches(files[j], oldExt) && files[j].name.Text?
        ensures RenameResult(files[j].name.s, NewName(files[j].name.s, oldExt, newExt), true) in ri + step
      {
        var f := files[j];
        var x := RenameResult(f.name.s, NewName(f.name.s, oldExt, newExt), true);
        if j < |init| {
          assert init[j] == f;
          assert x in ri;
        } else {
          assert step == [x];
        }
      }
    }
  }

  /** When every record is an object with a string name, no record fails. */
  lemma {:induction false} NoErrorsForStringNames(files: seq<FileEntry>, oldExt: string)
    requires forall j :: 0 <= j < |files| ==> files[j].Entry? && files[j].name.Text?
    ensures ErrorsOf(files, oldExt) == [] && !Aborts(files, oldExt)
    decreases |files|
  {
    if |files| > 0 {
      NoErrorsForStringNames(files[..|files| - 1], oldExt);
    }
  }

  /**
   * A record that throws past the per-file catch fails the whole request
   * with 500, whatever the records around it are.
   */
  lemma ThrowingRecordAborts(a: seq<FileEntry>, f: FileEntry, b: seq<FileEntry>, oldExt: string, newExt: string)
    requires oldExt != "" && newExt != ""
    requires Throws(f, oldExt)
    ensures PostSpec(Some(Request(Some(oldExt), Some(newExt), Some(a + [f] + b)))) == Failed(500, InternalError)
  {
    assert (a + [f] + b)[|a|] == f;
  }

  /** Every record yields at most one result or one error, so the counts never exceed the total. */
  lemma {:induction false} CountsBounded(files: seq<FileEntry>, oldExt: string, newExt: string)
    ensures |ResultsOf(files, oldExt, newExt)| + |ErrorsOf(files, oldExt)| <= |files|
    decreases |files|
  {
    if |files| > 0 {
      CountsBounded(files[..|files| - 1], oldExt, newExt);
    }
  }

  /**
   * The summary: `total` is the number of submitted records, `successful`
   * and `failed` the lengths of the lists, and together they never exceed
   * `total`.
   */
  lemma SummaryCounts(body: Option<Request>)
    requires PostSpec(body).Succeeded?
    ensures var resp := PostSpec(body);
            && resp.summary.total == |body.value.files.value|
            && resp.summary.successful == |resp.results|
            && resp.summary.failed == |resp.errors|
            && resp.summary.successful + resp.summary.failed <= resp.summary.total
  {
    CountsBounded(body.value.files.value, body.value.oldExtension.value, body.value.newExtension.value);
  }

  /** An absent or empty extension, or `files` that is not an array, is answered 400 with no results. */
  lemma RejectsMissingParameters(req: Request)
    requires req.oldExtension.None? || req.oldExtension == Some("")
          || req.newExtension.None? || req.newExtension == Some("")
          || req.files.None?
    ensures PostSpec(Some(req)) == Failed(400, MissingParameters)
  {
  }

  // ---------------------------------------------------------------------
  // The newExt name
  // ---------------------------------------------------------------------

  /**
   * When the extension has no dot, the replacement has no `$` and `.oldExt`
   * does not occur in the base, the `.oldExt` right after the base becomes
   * `.newExt` and whatever follows it is kept.
   */
  lemma NewNameReplacesExtension(base: string, oldExt: string, newExt: string, rest: string)
    requires '.' !in oldExt && '$' !in newExt
    requires !Contains(base, "." + oldExt)
    ensures NewName(base + "." + oldExt + rest, oldExt, newExt) == base + "." + newExt + rest
  {
    AppendAssoc(base, ".", oldExt);
    AppendAssoc(base, ".", newExt);
    NoOccurrenceBeforeExtension(base, oldExt, rest);
    assert '$' !in "." + newExt;
    ReplaceFirstAfter(base, "." + oldExt, rest, "." + newExt);
  }

  /** A dot-free `.oldExt` placed after a base that lacks it does not start inside the base. */
  lemma NoOccurrenceBeforeExtension(base: string, oldExt: string, rest: string)
    requires '.' !in oldExt
    requires !Contains(base, "." + oldExt)
    ensures forall j :: 0 <= j < |base| ==> !OccursAt(base + ("." + oldExt) + rest, "." + oldExt, j)
  {
    var p := "." + oldExt;
    var s := base + p + rest;
    forall j | 0 <= j < |base| ensures !OccursAt(s, p, j) {
      if j + |p| <= |base| {
        assert s[j..j + |p|] == base[j..j + |p|];
        assert !OccursAt(base, p, j);
      } else if j + |p| <= |s| {
        var m := |base| - j;
        assert s[j..j + |p|][m] == s[|base|] == '.';
        assert p[m] == oldExt[m - 1];
      }
    }
  }

  /** Only the first occurrence is replaced: with jpg → png, "a.jpg.jpg" becomes "a.png.jpg". */
  lemma NewNameReplacesFirstOccurrence(base: string, oldExt: string, newExt: string)
    requires '.' !in oldExt && '$' !in newExt
    requires !Contains(base, "." + oldExt)
    ensures NewName(base + "." + oldExt + "." + oldExt, oldExt, newExt) == base + "." + newExt + "." + oldExt
  {
    NewNameReplacesExtension(base, oldExt, newExt, "." + oldExt);
    AppendAssoc(base + "." + oldExt, ".", oldExt);
    AppendAssoc(base + "." + newExt, ".", oldExt);
  }

  /**
   * Without the no-dot condition the base may already hold the start of
   * `.oldExt`. With oldExt `e.e` the name `c.e.e.e` is meant as base `c.e`
   * plus `.e.e`, but it is rewritten inside the base, to `c.new.e` (with
   * c = "x", e = "a" and new = "b": "x.a.a.a" becomes "x.b.a").
   */
  lemma NewNameStraddlesWhenExtensionHasDot(c: char, e: string, newExt: string)
    requires c != '.' && '$' !in newExt
    ensures var oldExt := e + "." + e;
            NewName([c] + "." + oldExt + "." + e, oldExt, newExt) == [c] + "." + newExt + "." + e
  {
    var oldExt := e + "." + e;
    var p, rep := "." + oldExt, "." + newExt;
    var name := [c] + p + ("." + e);
    assert !OccursAt(name, p, 0) by {
      assert name[0] != p[0];
    }
    assert '$' !in rep;
    ReplaceFirstAfter([c], p, "." + e, rep);
    AppendAssoc([c], ".", oldExt);
    AppendAssoc([c], ".", newExt);
    AppendAssoc([c] + "." + oldExt, ".", e);
    AppendAssoc([c] + "." + newExt, ".", e);
  }
}
