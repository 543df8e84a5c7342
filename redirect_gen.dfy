/** The redirect-rule generator: rows of a CSV file (source URL, destination
    URL, redirect code) are validated for their redirect code and then turned,
    in order, into Apache directives whose text is written to the output file.

    The URL parser the generator calls is outside this model: it is the
    parameter `parse`, which either rejects a URL (`None`) or gives its path
    and query string (each possibly absent) and its normalised full text. */
module RedirectGen {
  import opened PathEscape
  import opened RuleText

  datatype Option<T> = None | Some(value: T)

  /** One CSV row, its three fields as read. */
  datatype Row = Row(source: string, destination: string, redirectCode: string)

  /** What the URL parser reports of a URL it accepts: its path and its
      query string, each of which may be absent, and its normalised text. */
  datatype Url = Url(path: Option<string>, query: Option<string>, url: string)

  /** Why composing the rules can stop. `MalformedUrl` is the parser
      rejecting `location`; `MissingPath` is a source URL without a path,
      whose absent path the first escaping step cannot take. */
  datatype Failure = MalformedUrl(location: string) | MissingPath

  datatype Result<T> = Ok(value: T) | Err(failure: Failure)

  /** What a whole run ends with: the text of the output file, the position
      of the row reported for an invalid redirect code, or a failure while
      composing the rules. In the last two cases no file is written. */
  datatype Outcome = Written(text: string) | InvalidCode(at: nat) | Failed(failure: Failure)

  /** The redirect codes the generator accepts. */
  const ValidRedirectCodes: seq<string> := ["301", "302", "307"]

  /** A row takes part in validation and generation only when none of its
      three fields is empty; any row with an empty field is skipped. */
  predicate Populated(row: Row)
  {
    row.source != "" && row.destination != "" && row.redirectCode != ""
  }

  /** A row that is not skipped and whose code is not among `validCodes`. */
  predicate Offending(validCodes: seq<string>, row: Row)
  {
    Populated(row) && row.redirectCode !in validCodes
  }

  predicate AllCodesValid(validCodes: seq<string>, rows: seq<Row>)
  {
    forall i :: 0 <= i < |rows| ==> !Offending(validCodes, rows[i])
  }

  // ---------------------------------------------------------------------------
  // Validation.

  /** Scans the rows in order and stops at the first one that is not skipped
      and carries a code outside `validCodes`. `ok` is the verdict; when it is
      false, `at` is the position of the row that is reported. */
  method CheckRedirectCode(validCodes: seq<string>, rows: seq<Row>) returns (ok: bool, at: nat)
    ensures ok <==> AllCodesValid(validCodes, rows)
    ensures ok ==> at == |rows|
    ensures !ok ==> at < |rows| && Offending(validCodes, rows[at]) && AllCodesValid(validCodes, rows[..at])
  {
    for i := 0 to |rows|
      invariant AllCodesValid(validCodes, rows[..i])
    {
      var item := rows[i];
      if item.source != "" && item.destination != "" && item.redirectCode != "" {
        if item.redirectCode !in validCodes {
          return false, i;
        }
      }
    }
    assert rows[..|rows|] == rows;
    return true, |rows|;
  }

  /** With the generator's own code list, validation passes exactly when every
      row that is not skipped carries 301, 302 or 307. */
  lemma FixedCodesAccepted(rows: seq<Row>)
    ensures AllCodesValid(ValidRedirectCodes, rows) <==>
      forall i :: 0 <= i < |rows| && Populated(rows[i]) ==>
        rows[i].redirectCode == "301" || rows[i].redirectCode == "302" || rows[i].redirectCode == "307"
  {
  }

  // ---------------------------------------------------------------------------
  // The rows that are not skipped.

  /** The rows with no empty field, in their input order. */
  function Kept(rows: seq<Row>): seq<Row>
  {
    if rows == [] then []
    else (if Populated(rows[0]) then [rows[0]] else []) + Kept(rows[1..])
  }

  /** The kept rows are rows of the input with no empty field, and there are
      no more of them than rows. */
  lemma {:induction false} KeptMembers(rows: seq<Row>)
    ensures |Kept(rows)| <= |rows|
    ensures forall k :: 0 <= k < |Kept(rows)| ==> Populated(Kept(rows)[k]) && Kept(rows)[k] in rows
  {
    if rows != [] {
      KeptMembers(rows[1..]);
      var head := if Populated(rows[0]) then [rows[0]] else [];
      var kept := head + Kept(rows[1..]);
      assert Kept(rows) == kept;
      forall k | 0 <= k < |kept|
        ensures Populated(kept[k]) && kept[k] in rows
      {
        if k >= |head| {
          assert kept[k] == Kept(rows[1..])[k - |head|];
          assert Kept(rows[1..])[k - |head|] in rows[1..];
        }
      }
    }
  }

  lemma {:induction false} KeptAppend(a: seq<Row>, b: seq<Row>)
    ensures Kept(a + b) == Kept(a) + Kept(b)
  {
    if a == [] {
      assert a + b == b;
    } else {
      var ab := a + b;
      assert ab[0] == a[0] && ab[1..] == a[1..] + b;
      KeptAppend(a[1..], b);
      var h := if Populated(a[0]) then [a[0]] else [];
      assert Kept(ab) == h + Kept(a[1..] + b);
      assert Kept(a) == h + Kept(a[1..]);
    }
  }

  /** A single row is kept exactly when it has no empty field. */
  lemma KeptSingle(row: Row)
    ensures Kept([row]) == if Populated(row) then [row] else []
  {
    assert [row][1..] == [];
  }

  /** Dropping the skipped rows beforehand changes nothing. */
  lemma {:induction false} KeptIdempotent(rows: seq<Row>)
    ensures Kept(Kept(rows)) == Kept(rows)
  {
    if rows != [] {
      var head := if Populated(rows[0]) then [rows[0]] else [];
      KeptAppend(head, Kept(rows[1..]));
      KeptIdempotent(rows[1..]);
      assert Kept(head) == head by {
        if head != [] { assert head[1..] == []; }
      }
    }
  }

  /** Validation looks only at the rows that are not skipped: it passes on
      the rows exactly when it passes on those rows alone. */
  lemma {:induction false} ValidationIgnoresSkippedRows(validCodes: seq<string>, rows: seq<Row>)
    ensures AllCodesValid(validCodes, rows) <==> AllCodesValid(validCodes, Kept(rows))
  {
    if rows != [] {
      ValidationIgnoresSkippedRows(validCodes, rows[1..]);
      var head := if Populated(rows[0]) then [rows[0]] else [];
      assert rows == [rows[0]] + rows[1..];
      AllCodesValidAppend(validCodes, [rows[0]], rows[1..]);
      AllCodesValidAppend(validCodes, head, Kept(rows[1..]));
    }
  }

  /** Validation of two runs of rows is validation of each. */
  lemma AllCodesValidAppend(validCodes: seq<string>, a: seq<Row>, b: seq<Row>)
    ensures AllCodesValid(validCodes, a + b) <==> AllCodesValid(validCodes, a) && AllCodesValid(validCodes, b)
  {
    var ab := a + b;
    assert forall i :: 0 <= i < |a| ==> ab[i] == a[i];
    assert forall i :: |a| <= i < |ab| ==> ab[i] == b[i - |a|];
    if AllCodesValid(validCodes, a) && AllCodesValid(validCodes, b) {
      forall i | 0 <= i < |ab|
        ensures !Offending(validCodes, ab[i])
      {
        if i >= |a| {
          assert ab[i] == b[i - |a|];
        }
      }
    }
    if AllCodesValid(validCodes, ab) {
      forall i | 0 <= i < |b|
        ensures !Offending(validCodes, b[i])
      {
        assert ab[|a| + i] == b[i];
      }
    }
  }

  // ---------------------------------------------------------------------------
  // Composition.

  /** The failure the row meets when its rule is composed, if any. The
      source URL is parsed first, its path is escaped next, and the
      destination URL is parsed last, when the rule text is built. */
  function RowFailure(row: Row, parse: string -> Option<Url>): Option<Failure>
  {
    match parse(row.source)
    case None => Some(MalformedUrl(row.source))
    case Some(source) =>
      if source.path.None? then Some(MissingPath)
      else if parse(row.destination).None? then Some(MalformedUrl(row.destination))
      else None
  }

  /** Every row that is not skipped can be composed. */
  predicate Composable(rows: seq<Row>, parse: string -> Option<Url>)
  {
    forall i :: 0 <= i < |rows| && Populated(rows[i]) ==> RowFailure(rows[i], parse) == None
  }

  /** The failure of the first row, in input order, that is not skipped and
      cannot be composed. */
  function FirstFailure(rows: seq<Row>, parse: string -> Option<Url>): Option<Failure>
  {
    if rows == [] then None
    else if Populated(rows[0]) && RowFailure(rows[0], parse).Some? then RowFailure(rows[0], parse)
    else FirstFailure(rows[1..], parse)
  }

  /** The directive for one row that is not skipped: a `mod_rewrite` block
      when the source URL has a query string, a `RedirectMatch` line
      otherwise. */
  function RuleFor(row: Row, parse: string -> Option<Url>): string
    requires RowFailure(row, parse) == None
  {
    var source := parse(row.source).value;
    var pattern := SourcePattern(source.path.value, source.query.Some?);
    var destination := parse(row.destination).value.url;
    match source.query
    case Some(query) => RewriteBlockRule(row.redirectCode, pattern, query, destination)
    case None => RedirectMatchRule(row.redirectCode, pattern, destination)
  }

  /** The rules the generator composes: one per row that is not skipped, in
      input order. */
  function Composed(rows: seq<Row>, parse: string -> Option<Url>): seq<string>
    requires Composable(rows, parse)
  {
    KeptMembers(rows);
    RulesOf(Kept(rows), parse)
  }

  /** The rule of each of `kept`, in order. */
  function RulesOf(kept: seq<Row>, parse: string -> Option<Url>): seq<string>
    requires forall k :: 0 <= k < |kept| ==> RowFailure(kept[k], parse) == None
  {
    seq(|kept|, k requires 0 <= k < |kept| => RuleFor(kept[k], parse))
  }

  /** Walks the rows in order and appends one rule for every row that is not
      skipped, rewriting the source path step by step on the way; stops at
      the first such row whose URLs cannot be used. */
  method ComposeRewrite(rows: seq<Row>, parse: string -> Option<Url>) returns (result: Result<seq<string>>)
    ensures FirstFailure(rows, parse).Some? ==> result == Err(FirstFailure(rows, parse).value)
    ensures FirstFailure(rows, parse).None? ==> Composable(rows, parse) && result == Ok(Composed(rows, parse))
  {
    var rules := [];
    for i := 0 to |rows|
      invariant Composable(rows[..i], parse)
      invariant rules == Composed(rows[..i], parse)
    {
      var item := rows[i];
      if item.source != "" && item.destination != "" && item.redirectCode != "" {
        var parsed := parse(item.source);
        if parsed.None? {
          FirstFailureAt(rows, i, parse);
          return Err(MalformedUrl(item.source));
        }
        var source := parsed.value;
        if source.path.None? {
          FirstFailureAt(rows, i, parse);
          return Err(MissingPath);
        }
        var sourcePath := EscapePercent(source.path.value);
        sourcePath := EscapeDots(sourcePath);
        sourcePath := OptionalTrailingSlash(sourcePath);
        if source.query.Some? {
          sourcePath := DropSlashBeforeQuestion(sourcePath);
        }
        var destination := parse(item.destination);
        if destination.None? {
          FirstFailureAt(rows, i, parse);
          return Err(MalformedUrl(item.destination));
        }
        if source.query.Some? {
          rules := rules + [RewriteBlockRule(item.redirectCode, sourcePath, source.query.value, destination.value.url)];
        } else {
          rules := rules + [RedirectMatchRule(item.redirectCode, sourcePath, destination.value.url)];
        }
      }
      assert rows[..i + 1] == rows[..i] + [rows[i]];
      ComposedSnoc(rows[..i], rows[i], parse);
    }
    assert rows[..|rows|] == rows;
    FirstFailureNone(rows, parse);
    return Ok(rules);
  }

  /** Two runs of rows can be composed together exactly when each can. */
  lemma ComposableAppend(a: seq<Row>, b: seq<Row>, parse: string -> Option<Url>)
    ensures Composable(a + b, parse) <==> Composable(a, parse) && Composable(b, parse)
  {
    var ab := a + b;
    assert forall i :: 0 <= i < |a| ==> ab[i] == a[i];
    assert forall i :: 0 <= i < |b| ==> ab[|a| + i] == b[i];
    if Composable(a, parse) && Composable(b, parse) {
      forall i | 0 <= i < |ab| && Populated(ab[i])
        ensures RowFailure(ab[i], parse) == None
      {
        if i >= |a| {
          assert ab[i] == b[i - |a|];
        }
      }
    }
  }

  /** No row fails exactly when every row that is not skipped can be
      composed. */
  lemma {:induction false} FirstFailureNone(rows: seq<Row>, parse: string -> Option<Url>)
    ensures FirstFailure(rows, parse) == None <==> Composable(rows, parse)
  {
    if rows != [] {
      FirstFailureNone(rows[1..], parse);
      assert rows == [rows[0]] + rows[1..];
      ComposableAppend([rows[0]], rows[1..], parse);
    }
  }

  /** The first failure of two runs is that of the first run, if it has one,
      and that of the second otherwise. */
  lemma {:induction false} FirstFailureAppend(a: seq<Row>, b: seq<Row>, parse: string -> Option<Url>)
    ensures FirstFailure(a + b, parse) == if FirstFailure(a, parse).Some? then FirstFailure(a, parse) else FirstFailure(b, parse)
  {
    if a == [] {
      assert a + b == b;
    } else {
      assert (a + b)[1..] == a[1..] + b;
      FirstFailureAppend(a[1..], b, parse);
    }
  }

  /** A row that is not skipped and cannot be composed, after rows that all
      can, decides the failure of the whole run. */
  lemma FirstFailureAt(rows: seq<Row>, i: nat, parse: string -> Option<Url>)
    requires i < |rows| && Composable(rows[..i], parse)
    requires Populated(rows[i]) && RowFailure(rows[i], parse).Some?
    ensures FirstFailure(rows, parse) == RowFailure(rows[i], parse)
  {
    var before, from := rows[..i], rows[i..];
    assert rows == before + from;
    FirstFailureNone(before, parse);
    FirstFailureAppend(before, from, parse);
    assert from[0] == rows[i];
    FirstFailureHead(from, parse);
  }

  lemma FirstFailureHead(rows: seq<Row>, parse: string -> Option<Url>)
    requires rows != [] && Populated(rows[0]) && RowFailure(rows[0], parse).Some?
    ensures FirstFailure(rows, parse) == RowFailure(rows[0], parse)
  {
  }

  /** A row with an empty field is never parsed, so it never fails, wherever
      it stands. */
  lemma SkippedRowNeverFails(before: seq<Row>, row: Row, after: seq<Row>, parse: string -> Option<Url>)
    requires !Populated(row)
    ensures FirstFailure(before + [row] + after, parse) == FirstFailure(before + after, parse)
  {
    FirstFailureAppend(before + [row], after, parse);
    FirstFailureAppend(before, [row], parse);
    FirstFailureAppend(before, after, parse);
    assert [row][1..] == [];
  }

  /** Composing two runs of rows one after the other gives the rules of the
      first followed by those of the second. */
  lemma ComposedAppend(a: seq<Row>, b: seq<Row>, parse: string -> Option<Url>)
    requires Composable(a, parse) && Composable(b, parse)
    ensures Composable(a + b, parse)
    ensures Composed(a + b, parse) == Composed(a, parse) + Composed(b, parse)
  {
    ComposableAppend(a, b, parse);
    KeptAppend(a, b);
    KeptMembers(a);
    KeptMembers(b);
    RulesOfAppend(Kept(a), Kept(b), parse);
  }

  lemma RulesOfAppend(x: seq<Row>, y: seq<Row>, parse: string -> Option<Url>)
    requires forall k :: 0 <= k < |x| ==> RowFailure(x[k], parse) == None
    requires forall k :: 0 <= k < |y| ==> RowFailure(y[k], parse) == None
    ensures forall k :: 0 <= k < |x + y| ==> RowFailure((x + y)[k], parse) == None
    ensures RulesOf(x + y, parse) == RulesOf(x, parse) + RulesOf(y, parse)
  {
    var xy := x + y;
    forall k | 0 <= k < |xy|
      ensures RowFailure(xy[k], parse) == None
    {
      if k >= |x| {
        assert xy[k] == y[k - |x|];
      }
    }
    var r, l := RulesOf(xy, parse), RulesOf(x, parse) + RulesOf(y, parse);
    assert |r| == |xy| == |x| + |y| == |l|;
    forall k | 0 <= k < |r|
      ensures r[k] == l[k]
    {
      if k < |x| {
        RuleOfSame(xy, k, x, k, parse);
      } else {
        RuleOfSame(xy, k, y, k - |x|, parse);
      }
    }
  }

  /** Equal rows at two positions have equal rules. */
  lemma RuleOfSame(x: seq<Row>, i: nat, y: seq<Row>, j: nat, parse: string -> Option<Url>)
    requires forall k :: 0 <= k < |x| ==> RowFailure(x[k], parse) == None
    requires forall k :: 0 <= k < |y| ==> RowFailure(y[k], parse) == None
    requires i < |x| && j < |y| && x[i] == y[j]
    ensures RulesOf(x, parse)[i] == RulesOf(y, parse)[j]
  {
  }

  /** One more row adds its rule when it is not skipped, and nothing when
      it is. */
  lemma ComposedSnoc(rows: seq<Row>, row: Row, parse: string -> Option<Url>)
    requires Composable(rows, parse)
    requires Populated(row) ==> RowFailure(row, parse) == None
    ensures Composable(rows + [row], parse)
    ensures Composed(rows + [row], parse)
      == Composed(rows, parse) + if Populated(row) then [RuleFor(row, parse)] else []
  {
    assert Composable([row], parse);
    ComposedAppend(rows, [row], parse);
    KeptSingle(row);
  }

  /** Each row that is not skipped gets its rule, at the position given by
      the number of non-skipped rows before it. */
  lemma ComposedAt(rows: seq<Row>, i: nat, parse: string -> Option<Url>)
    requires Composable(rows, parse)
    requires i < |rows| && Populated(rows[i])
    ensures |Kept(rows[..i])| < |Composed(rows, parse)|
    ensures Composed(rows, parse)[|Kept(rows[..i])|] == RuleFor(rows[i], parse)
  {
    assert rows == rows[..i] + ([rows[i]] + rows[i + 1..]);
    KeptAppend(rows[..i], [rows[i]] + rows[i + 1..]);
    KeptAppend([rows[i]], rows[i + 1..]);
    assert Kept([rows[i]]) == [rows[i]] by { assert [rows[i]][1..] == []; }
  }

  /** A row with an empty field contributes nothing, wherever it stands. */
  lemma SkippedRowAddsNothing(before: seq<Row>, row: Row, after: seq<Row>, parse: string -> Option<Url>)
    requires !Populated(row) && Composable(before + after, parse)
    ensures Composable(before + [row] + after, parse)
    ensures Composed(before + [row] + after, parse) == Composed(before + after, parse)
  {
    ComposableAppend(before, after, parse);
    ComposableAppend(before, [row], parse);
    ComposableAppend(before + [row], after, parse);
    KeptAppend(before + [row], after);
    KeptAppend(before, [row]);
    KeptAppend(before, after);
    assert Kept([row]) == [] by { assert [row][1..] == []; }
    assert Kept(before + [row] + after) == Kept(before + after);
  }

  /** Filtering out the skipped rows first yields the same rules. */
  lemma ComposedOfKept(rows: seq<Row>, parse: string -> Option<Url>)
    requires Composable(rows, parse)
    ensures Composable(Kept(rows), parse)
    ensures Composed(Kept(rows), parse) == Composed(rows, parse)
  {
    KeptMembers(rows);
    KeptIdempotent(rows);
    forall k | 0 <= k < |Kept(rows)|
      ensures RowFailure(Kept(rows)[k], parse) == None
    {
      var j :| 0 <= j < |rows| && rows[j] == Kept(rows)[k];
    }
  }

  // ---------------------------------------------------------------------------
  // The output file.

  /** The lines of the directive for one row. */
  function RuleLines(row: Row, parse: string -> Option<Url>): seq<string>
    requires RowFailure(row, parse) == None
  {
    var source := parse(row.source).value;
    var pattern := SourcePattern(source.path.value, source.query.Some?);
    var destination := parse(row.destination).value.url;
    match source.query
    case Some(query) => RewriteBlockLines(row.redirectCode, pattern, query, destination)
    case None => RedirectMatchLines(row.redirectCode, pattern, destination)
  }

  /** Every rule is its lines, each ended by a newline; so every rule ends in
      a newline. */
  lemma RuleForIsLines(row: Row, parse: string -> Option<Url>)
    requires RowFailure(row, parse) == None
    ensures RuleFor(row, parse) == JoinLines(RuleLines(row, parse))
    ensures |RuleFor(row, parse)| > 0 && RuleFor(row, parse)[|RuleFor(row, parse)| - 1] == '\n'
  {
    var source := parse(row.source).value;
    var pattern := SourcePattern(source.path.value, source.query.Some?);
    var destination := parse(row.destination).value.url;
    match source.query
    case Some(query) =>
      RewriteBlockRuleIsLines(row.redirectCode, pattern, query, destination);
    case None =>
      RedirectMatchRuleIsLines(row.redirectCode, pattern, destination);
  }

  /** All the lines of all the rules, in row order. */
  function OutputLines(rows: seq<Row>, parse: string -> Option<Url>): seq<string>
    requires Composable(rows, parse)
  {
    KeptMembers(rows);
    var kept := Kept(rows);
    Flatten(seq(|kept|, k requires 0 <= k < |kept| => RuleLines(kept[k], parse)))
  }

  /** The row can be composed, and its fields as they reach the output hold
      no newline. */
  predicate SingleLineFields(row: Row, parse: string -> Option<Url>)
  {
    RowFailure(row, parse) == None &&
    var source := parse(row.source).value;
    NoNewline(row.redirectCode) && NoNewline(source.path.value) && NoNewline(parse(row.destination).value.url) &&
    (source.query.Some? ==> NoNewline(source.query.value))
  }

  /** The output file is the rules written one after another; read back line
      by line it is the lines of every rule, in row order. */
  lemma OutputFileLines(rows: seq<Row>, parse: string -> Option<Url>)
    requires forall i :: 0 <= i < |rows| && Populated(rows[i]) ==> SingleLineFields(rows[i], parse)
    ensures Composable(rows, parse)
    ensures Concat(Composed(rows, parse)) == JoinLines(OutputLines(rows, parse))
    ensures SplitLines(Concat(Composed(rows, parse))) == OutputLines(rows, parse)
  {
    assert Composable(rows, parse);
    ComposedIsLines(rows, parse);
    OutputLinesSingle(rows, parse);
    SplitJoinLines(OutputLines(rows, parse));
  }

  /** Writing the rules one after another is writing all their lines. */
  lemma ComposedIsLines(rows: seq<Row>, parse: string -> Option<Url>)
    requires Composable(rows, parse)
    ensures Concat(Composed(rows, parse)) == JoinLines(OutputLines(rows, parse))
  {
    var kept := Kept(rows);
    KeptMembers(rows);
    var groups := seq(|kept|, k requires 0 <= k < |kept| => RuleLines(kept[k], parse));
    forall k | 0 <= k < |kept|
      ensures Composed(rows, parse)[k] == JoinLines(groups[k])
    {
      RuleForIsLines(kept[k], parse);
    }
    assert Composed(rows, parse) == seq(|groups|, i requires 0 <= i < |groups| => JoinLines(groups[i]));
    ConcatJoinLines(groups);
  }

  /** When the fields of every row that is not skipped hold no newline, no
      output line does. */
  lemma OutputLinesSingle(rows: seq<Row>, parse: string -> Option<Url>)
    requires forall i :: 0 <= i < |rows| && Populated(rows[i]) ==> SingleLineFields(rows[i], parse)
    ensures Composable(rows, parse)
    ensures forall j :: 0 <= j < |OutputLines(rows, parse)| ==> NoNewline(OutputLines(rows, parse)[j])
  {
    assert Composable(rows, parse);
    var kept := Kept(rows);
    KeptMembers(rows);
    var groups := seq(|kept|, k requires 0 <= k < |kept| => RuleLines(kept[k], parse));
    forall k | 0 <= k < |kept|
      ensures forall j :: 0 <= j < |groups[k]| ==> NoNewline(groups[k][j])
    {
      var row := kept[k];
      assert SingleLineFields(row, parse) by {
        var i :| 0 <= i < |rows| && rows[i] == row;
      }
      RuleLinesSingle(row, parse);
    }
    FlattenNoNewline(groups);
  }

  lemma RuleLinesSingle(row: Row, parse: string -> Option<Url>)
    requires SingleLineFields(row, parse)
    ensures forall j :: 0 <= j < |RuleLines(row, parse)| ==> NoNewline(RuleLines(row, parse)[j])
  {
    var source := parse(row.source).value;
    var pattern := SourcePattern(source.path.value, source.query.Some?);
    var destination := parse(row.destination).value.url;
    SourcePatternNoNewline(source.path.value, source.query.Some?);
    match source.query
    case Some(query) =>
      RewriteBlockLinesSingle(row.redirectCode, pattern, query, destination);
    case None =>
      RedirectMatchLinesSingle(row.redirectCode, pattern, destination);
  }

  lemma {:induction false} FlattenNoNewline(groups: seq<seq<string>>)
    requires forall k :: 0 <= k < |groups| ==> forall j :: 0 <= j < |groups[k]| ==> NoNewline(groups[k][j])
    ensures forall j :: 0 <= j < |Flatten(groups)| ==> NoNewline(Flatten(groups)[j])
  {
    if groups != [] {
      FlattenNoNewline(groups[1..]);
      var f := Flatten(groups);
      assert f == groups[0] + Flatten(groups[1..]);
      forall j | 0 <= j < |f|
        ensures NoNewline(f[j])
      {
        if j >= |groups[0]| {
          assert f[j] == Flatten(groups[1..])[j - |groups[0]|];
        }
      }
    }
  }

  /** The whole run: validate every row; only if that passes, compose the
      rules, and only if that succeeds, produce the text of the output file
      (the rules written one after another). */
  method GenerateRedirects(rows: seq<Row>, parse: string -> Option<Url>) returns (outcome: Outcome)
    ensures outcome.InvalidCode? <==> !AllCodesValid(ValidRedirectCodes, rows)
    ensures outcome.InvalidCode? ==>
      outcome.at < |rows| && Offending(ValidRedirectCodes, rows[outcome.at]) &&
      AllCodesValid(ValidRedirectCodes, rows[..outcome.at])
    ensures outcome.Failed? <==> AllCodesValid(ValidRedirectCodes, rows) && FirstFailure(rows, parse).Some?
    ensures outcome.Failed? ==> outcome.failure == FirstFailure(rows, parse).value
    ensures outcome.Written? ==> Composable(rows, parse) && outcome.text == Concat(Composed(rows, parse))
  {
    var ok, at := CheckRedirectCode(ValidRedirectCodes, rows);
    if !ok {
      return InvalidCode(at);
    }
    var result := ComposeRewrite(rows, parse);
    match result
    case Err(failure) =>
      outcome := Failed(failure);
    case Ok(rules) =>
      outcome := Written(Concat(rules));
  }

  // ---------------------------------------------------------------------------
  // Worked examples.

  /** A path of plain characters (no `%`, no `.`) is its own escape. */
  lemma {:induction false} EscapePathPlain(path: string)
    requires '%' !in path && '.' !in path
    ensures EscapePath(path) == path
  {
    EscapePathIsPerCharacter(path);
    EscapeEachPlain(path);
  }

  lemma {:induction false} EscapeEachPlain(path: string)
    requires '%' !in path && '.' !in path
    ensures EscapeEach(path) == path
  {
    if path != [] {
      assert path == [path[0]] + path[1..];
      EscapeEachPlain(path[1..]);
    }
  }

  /** A single row that is not skipped and can be composed composes to its
      own rule. */
  lemma ComposedSingle(row: Row, parse: string -> Option<Url>)
    requires Populated(row) && RowFailure(row, parse) == None
    ensures Composable([row], parse)
    ensures Composed([row], parse) == [RuleFor(row, parse)]
  {
    assert Kept([row]) == [row] by { assert [row][1..] == []; }
  }

  /** A row whose source URL has no query string composes to one
      `RedirectMatch` directive with the source's pattern. */
  lemma RowWithoutQuery(row: Row, parse: string -> Option<Url>, path: string, pattern: string)
    requires Populated(row) && parse(row.destination).Some?
    requires parse(row.source).Some? && parse(row.source).value.path == Some(path) && parse(row.source).value.query == None
    requires SourcePattern(path, false) == pattern
    ensures Composable([row], parse)
    ensures Composed([row], parse) == [RedirectMatchRule(row.redirectCode, pattern, parse(row.destination).value.url)]
  {
    ComposedSingle(row, parse);
  }

  /** A row whose source URL has a query string composes to one
      `mod_rewrite` block with the source's pattern and query string. */
  lemma RowWithQuery(row: Row, parse: string -> Option<Url>, path: string, pattern: string, query: string)
    requires Populated(row) && parse(row.destination).Some?
    requires parse(row.source).Some? && parse(row.source).value.path == Some(path) && parse(row.source).value.query == Some(query)
    requires SourcePattern(path, true) == pattern
    ensures Composable([row], parse)
    ensures Composed([row], parse) == [RewriteBlockRule(row.redirectCode, pattern, query, parse(row.destination).value.url)]
  {
    ComposedSingle(row, parse);
  }

  /** A trailing-slash source without a query string matches with or without
      its slash. */
  lemma ExampleTrailingSlash(parse: string -> Option<Url>)
    requires parse("http://example.com/peterlavelle/") == Some(Url(Some("/peterlavelle" + "/"), None, "http://example.com/peterlavelle/"))
    requires parse("http://example.com/new") == Some(Url(Some("/new"), None, "http://example.com/new"))
    ensures Composable([Row("http://example.com/peterlavelle/", "http://example.com/new", "301")], parse)
    ensures Composed([Row("http://example.com/peterlavelle/", "http://example.com/new", "301")], parse)
      == [RedirectMatchRule("301", "/peterlavelle" + "/?", "http://example.com/new")]
  {
    PlainTrailingSlashPattern("/peterlavelle");
    RowWithoutQuery(Row("http://example.com/peterlavelle/", "http://example.com/new", "301"), parse,
      "/peterlavelle" + "/", "/peterlavelle" + "/?");
  }

  /** A source URL without a path stops the run, but only when its row is not
      skipped. */
  lemma ExampleMissingPath(parse: string -> Option<Url>)
    requires parse("http://example.com") == Some(Url(None, None, "http://example.com"))
    ensures FirstFailure([Row("http://example.com", "http://example.com/new", "301")], parse) == Some(MissingPath)
    ensures FirstFailure([Row("http://example.com", "http://example.com/new", "")], parse) == None
  {
  }

  lemma PlainTrailingSlashPattern(p: string)
    requires '%' !in p && '.' !in p
    ensures SourcePattern(p + "/", false) == p + "/?"
  {
    SourcePatternTrailingSlash(p);
    EscapePathPlain(p);
  }

  /** A source with a query string gets a `mod_rewrite` block that matches
      the path and the query string separately. */
  lemma ExampleQueryString(parse: string -> Option<Url>)
    requires parse("http://example.com/page?foo=bar") == Some(Url(Some("/" + "page"), Some("foo=bar"), "http://example.com/page?foo=bar"))
    requires parse("http://example.com/new") == Some(Url(Some("/new"), None, "http://example.com/new"))
    ensures Composable([Row("http://example.com/page?foo=bar", "http://example.com/new", "302")], parse)
    ensures Composed([Row("http://example.com/page?foo=bar", "http://example.com/new", "302")], parse)
      == [RewriteBlockRule("302", "/" + "page", "foo=bar", "http://example.com/new")]
  {
    PlainQueryPattern("/" + "page");
    RowWithQuery(Row("http://example.com/page?foo=bar", "http://example.com/new", "302"), parse,
      "/" + "page", "/" + "page", "foo=bar");
  }

  lemma PlainQueryPattern(path: string)
    requires '%' !in path && '.' !in path && '?' !in path
    requires path != [] && path[|path| - 1] != '/' && path[|path| - 1] != '\n'
    ensures SourcePattern(path, true) == path
  {
    SourcePatternQueryNoTrailingSlash(path);
    EscapePathPlain(path);
  }

  /** Percent-encoded characters reach the regular expression as hex escapes
      and dots as escaped dots. */
  lemma ExampleEscapes()
    ensures SourcePattern("/a" + "%" + "20b", false) == "/a" + "\\x" + "20b"
    ensures SourcePattern("/file" + "." + "html", false) == "/file" + "\\." + "html"
  {
    PlainAroundOne("/a", '%', "20b");
    PlainAroundOne("/file", '.', "html");
  }

  /** The pattern of a path made of plain characters around one more
      character `c` is that path with `c` escaped. */
  lemma PlainAroundOne(a: string, c: char, b: string)
    requires '%' !in a + b && '.' !in a + b && c != '/'
    requires b != [] && b[|b| - 1] != '/' && b[|b| - 1] != '\n'
    ensures SourcePattern(a + [c] + b, false) == a + EscapeChar(c) + b
  {
    var path := a + [c] + b;
    EscapePlainAroundOne(a, c, b);
    assert path[|path| - 1] == b[|b| - 1];
    SourcePatternNoTrailingSlash(path);
  }

  lemma EscapePlainAroundOne(a: string, c: char, b: string)
    requires '%' !in a + b && '.' !in a + b
    ensures EscapePath(a + [c] + b) == a + EscapeChar(c) + b
  {
    assert forall x :: x in a ==> x in a + b;
    assert forall x :: x in b ==> x in a + b;
    EscapePathAppend(a + [c], b);
    EscapePathSnoc(a, c);
    EscapePathPlain(a);
    EscapePathPlain(b);
  }
}
