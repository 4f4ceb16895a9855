/** The three text operations of the sync script: splicing a sample-data
    overlay in front of the SQL footer, forcing the portal's
    `configView.memberOnly.envs` row to `'dev'`, and validating a rendered
    file. Each failure the script raises as `SyncError` is an `Err` here. */
module Sync {

  import opened Text
  import opened EnvRows

  /** The failures the script reports, with the values its messages show. */
  datatype SyncError =
    | MissingFile(description: string, path: string)
    | AnchorCount(sqlName: string, found: nat)
    | EmptyOverlay(sqlName: string)
    | MemberOnlyEnvNotEnforced
    | BlockCount(sqlName: string, found: nat)
    | BlockAfterFooter(sqlName: string)
    | MemberOnlyEnvCount(found: nat)
    | MemberOnlyEnvValue(value: string)
    | ContentMismatch(path: string)

  datatype Result<T> = Ok(value: T) | Err(error: SyncError)
  {
    predicate IsFailure() { Err? }

    function PropagateFailure<U>(): Result<U>
      requires Err?
    {
      Err(error)
    }

    function Extract(): T
      requires Ok?
    {
      value
    }
  }

  const AnchorBody: string := AnchorOpen + AnchorSet + AnchorClose
  const AnchorOpen: string := "/*!40111 "
  const AnchorSet: string := "SET SQL_NOTES="
  const AnchorClose: string := "@OLD_SQL_NOTES */"

  /** The statement that closes a MySQL dump; sample data goes before it. */
  const FooterAnchor: string := AnchorBody + ";"

  /** The facts about the anchor the proofs use: it starts with `/`, its
      closing `;` appears nowhere else in it, and it holds neither a newline
      nor a quote. */
  lemma AnchorFacts()
    ensures LastCharUnique(FooterAnchor) && FooterAnchor[0] == '/'
    ensures '\n' !in FooterAnchor && '\'' !in FooterAnchor
  {
    BodyChars();
    assert FooterAnchor[|FooterAnchor| - 1] == ';';
    forall k | 0 <= k < |FooterAnchor| - 1 ensures FooterAnchor[k] != ';' {
      assert FooterAnchor[k] == AnchorBody[k];
    }
  }

  /** The characters the anchor's body does not hold. */
  lemma BodyChars()
    ensures ';' !in AnchorBody && '\n' !in AnchorBody && '\'' !in AnchorBody
  {
    PartChars(AnchorOpen);
    PartChars(AnchorSet);
    PartChars(AnchorClose);
  }

  /** A piece of the anchor's body that has none of the three characters. */
  lemma PartChars(part: string)
    requires part == AnchorOpen || part == AnchorSet || part == AnchorClose
    ensures ';' !in part && '\n' !in part && '\'' !in part
  {
  }

  /** The anchor cannot overlap itself, so `count` gives the number of
      positions at which it occurs. */
  lemma AnchorCountIsPositions(s: string)
    ensures Count(s, FooterAnchor) == Occurrences(s, FooterAnchor)
  {
    AnchorFacts();
    CountIsOccurrences(s, FooterAnchor);
  }

  /** A pattern that `count` finds at least once occurs somewhere. */
  lemma CountedOccurs(s: string, p: string)
    requires Count(s, p) >= 1
    ensures exists k: nat :: OccursAt(s, p, k)
  {
    if |p| == 0 {
      assert OccursAt(s, p, 0);
    } else {
      CountZeroIff(s, p);
    }
  }

  /** `_inject_sample_data`: the overlay, with its leading and trailing
      newlines removed, goes between the text before the anchor and the
      anchor, a blank line on either side; newlines already at the seam are
      dropped. */
  function InjectSampleData(base: string, block: string, sqlName: string): (r: Result<string>)
    ensures r.Ok? ==> OccursOnce(base, FooterAnchor) && !AllNewlines(block)
  {
    AnchorFacts();
    CountOnceIff(base, FooterAnchor);
    var found := Count(base, FooterAnchor);
    if found != 1 then Err(AnchorCount(sqlName, found))
    else
      var normalized := StripNewlines(block);
      if normalized == [] then Err(EmptyOverlay(sqlName))
      else
        CountedOccurs(base, FooterAnchor);
        var pos := IndexOf(base, FooterAnchor);
        Ok(RStripNewlines(base[..pos]) + "\n\n" + normalized + "\n\n" + LStripNewlines(base[pos..]))
  }

  /** Injection fails exactly when the anchor does not occur exactly once or
      the overlay is nothing but newlines, and the anchor check comes first. */
  lemma InjectFailures(base: string, block: string, sqlName: string)
    ensures InjectSampleData(base, block, sqlName).Err? <==>
      !OccursOnce(base, FooterAnchor) || AllNewlines(block)
    ensures !OccursOnce(base, FooterAnchor) ==>
      InjectSampleData(base, block, sqlName) == Err(AnchorCount(sqlName, Count(base, FooterAnchor)))
    ensures OccursOnce(base, FooterAnchor) && AllNewlines(block) ==>
      InjectSampleData(base, block, sqlName) == Err(EmptyOverlay(sqlName))
  {
    AnchorFacts();
    CountOnceIff(base, FooterAnchor);
  }

  /** The test's example of a base text without the anchor. */
  lemma InjectWithoutAnchor()
    ensures InjectSampleData("CREATE TABLE `Sample` (`Id` int(11));\n", "INSERT INTO `Sample` VALUES (1);\n", "sample.sql")
      == Err(AnchorCount("sample.sql", 0))
  {
    assert |"CREATE TABLE `Sample` (`Id` int(11));\n"| < |FooterAnchor|;
  }

  /** The text with the anchor at `i`: the base text up to `i` with its
      trailing newlines removed, a blank line, the trimmed overlay, a blank
      line, then the base text from the anchor on, unchanged. */
  lemma InjectSplices(base: string, block: string, sqlName: string, i: nat)
    requires OccursAt(base, FooterAnchor, i)
    requires InjectSampleData(base, block, sqlName).Ok?
    ensures InjectSampleData(base, block, sqlName).value ==
      RStripNewlines(base[..i]) + "\n\n" + StripNewlines(block) + "\n\n" + base[i..]
  {
    AnchorFacts();
    CountedOccurs(base, FooterAnchor);
    var pos := IndexOf(base, FooterAnchor);
    assert pos == i;
    assert base[i..][0] == FooterAnchor[0];
  }

  /** Counting across the two blank lines the splice adds. */
  lemma SpliceCount(prefix: string, middle: string, tail: string, p: string)
    requires |p| > 0 && '\n' !in p
    ensures Count(prefix + "\n\n" + middle + "\n\n" + tail, p) ==
      Count(prefix, p) + Count(middle, p) + Count(tail, p)
  {
    assert prefix + "\n\n" + middle + "\n\n" + tail == prefix + "\n\n" + (middle + "\n\n" + tail);
    CountAcrossBlankLine(prefix, middle + "\n\n" + tail, p);
    CountAcrossBlankLine(middle, tail, p);
  }

  /** The kept prefix holds no anchor: one there would occur in `base`
      before the first anchor. */
  lemma PrefixHoldsNoAnchor(base: string, i: nat)
    requires i <= |base|
    requires forall j: nat :: j < i ==> !OccursAt(base, FooterAnchor, j)
    ensures Count(RStripNewlines(base[..i]), FooterAnchor) == 0
  {
    var prefix := RStripNewlines(base[..i]);
    assert prefix == base[..i][..|prefix|];
    forall j: nat | OccursAt(prefix, FooterAnchor, j) ensures OccursAt(base, FooterAnchor, j) {
      assert prefix[j..j + |FooterAnchor|] == base[..i][j..j + |FooterAnchor|];
    }
    CountZeroIff(prefix, FooterAnchor);
  }

  /** From the only anchor on, the text holds that one anchor. */
  lemma TailHoldsOneAnchor(base: string, i: nat)
    requires Count(base, FooterAnchor) == 1 && OccursAt(base, FooterAnchor, i)
    requires forall j: nat :: j < i ==> !OccursAt(base, FooterAnchor, j)
    ensures Count(base[i..], FooterAnchor) == 1
  {
    var tail := base[i..];
    CountFromFirst(base, FooterAnchor, i);
    assert FooterAnchor <= tail;
    assert tail[|FooterAnchor|..] == base[i + |FooterAnchor|..];
  }

  /** The output holds the base text's anchor plus whatever anchors the
      overlay holds; with none in the overlay the anchor occurs once. */
  lemma InjectAnchorCount(base: string, block: string, sqlName: string)
    requires InjectSampleData(base, block, sqlName).Ok?
    ensures Count(InjectSampleData(base, block, sqlName).value, FooterAnchor) ==
      1 + Count(StripNewlines(block), FooterAnchor)
    ensures OccursOnce(InjectSampleData(base, block, sqlName).value, FooterAnchor) <==>
      forall j: nat :: !OccursAt(StripNewlines(block), FooterAnchor, j)
  {
    var out := InjectSampleData(base, block, sqlName).value;
    AnchorFacts();
    CountOnceIff(base, FooterAnchor);
    CountedOccurs(base, FooterAnchor);
    var i := IndexOf(base, FooterAnchor);
    InjectSplices(base, block, sqlName, i);
    var nb := StripNewlines(block);
    PrefixHoldsNoAnchor(base, i);
    TailHoldsOneAnchor(base, i);
    SpliceCount(RStripNewlines(base[..i]), nb, base[i..], FooterAnchor);
    CountOnceIff(out, FooterAnchor);
    CountZeroIff(nb, FooterAnchor);
  }

  /** As the script's test expects: when the overlay holds no anchor,
      its first occurrence in the output comes before the anchor's. */
  lemma InjectBlockBeforeAnchor(base: string, block: string, sqlName: string)
    requires InjectSampleData(base, block, sqlName).Ok?
    requires forall j: nat :: !OccursAt(StripNewlines(block), FooterAnchor, j)
    ensures exists k: nat :: OccursAt(InjectSampleData(base, block, sqlName).value, StripNewlines(block), k)
    ensures exists k: nat :: OccursAt(InjectSampleData(base, block, sqlName).value, FooterAnchor, k)
    ensures IndexOf(InjectSampleData(base, block, sqlName).value, StripNewlines(block)) <
      IndexOf(InjectSampleData(base, block, sqlName).value, FooterAnchor)
  {
    var out := InjectSampleData(base, block, sqlName).value;
    var nb := StripNewlines(block);
    AnchorFacts();
    CountOnceIff(base, FooterAnchor);
    CountedOccurs(base, FooterAnchor);
    var i := IndexOf(base, FooterAnchor);
    InjectSplices(base, block, sqlName, i);
    InjectAnchorCount(base, block, sqlName);
    SpliceOrder(RStripNewlines(base[..i]), nb, base[i..]);
  }

  /** In a splice whose middle holds no anchor, the middle occurs before the
      first anchor of the tail, when the whole holds one anchor. */
  lemma SpliceOrder(prefix: string, middle: string, tail: string)
    requires OccursAt(tail, FooterAnchor, 0)
    requires OccursOnce(prefix + "\n\n" + middle + "\n\n" + tail, FooterAnchor)
    ensures exists k: nat :: OccursAt(prefix + "\n\n" + middle + "\n\n" + tail, middle, k)
    ensures exists k: nat :: OccursAt(prefix + "\n\n" + middle + "\n\n" + tail, FooterAnchor, k)
    ensures IndexOf(prefix + "\n\n" + middle + "\n\n" + tail, middle) <
      IndexOf(prefix + "\n\n" + middle + "\n\n" + tail, FooterAnchor)
  {
    var out := prefix + "\n\n" + middle + "\n\n" + tail;
    var at := |prefix| + 2;
    assert out[at..at + |middle|] == middle;
    assert OccursAt(out, middle, at);
    var anchorAt := at + |middle| + 2;
    assert out[anchorAt..] == tail;
    assert out[anchorAt..anchorAt + |FooterAnchor|] == tail[..|FooterAnchor|];
    assert OccursAt(out, FooterAnchor, anchorAt);
  }

  /** `_enforce_portal_member_only_env`: one `subn` with `count=1`, which
      rewrites the leftmost match of the pattern and fails only when there
      is none. */
  function EnforcePortalMemberOnlyEnv(sql: string): (r: Result<string>)
  {
    match FirstRow(sql, 0, true)
    case None => Err(MemberOnlyEnvNotEnforced)
    case Some(m) => Ok(Substitute(sql, m))
  }

  /** The rewrite fails exactly when no row matches; several rows are no
      error. */
  lemma EnforceFailsIffNoRow(sql: string)
    ensures EnforcePortalMemberOnlyEnv(sql).Err? <==> forall m: EnvRow :: !Shape(sql, m, true)
    ensures EnforcePortalMemberOnlyEnv(sql).Err? ==>
      EnforcePortalMemberOnlyEnv(sql).error == MemberOnlyEnvNotEnforced
  {
  }

  /** With `m` the leftmost match, the rewrite puts `'dev'` in place of the
      quoted value of `m` and keeps every other character, later matches
      included; the row then holds `dev` for both patterns. */
  lemma EnforceRewritesFirstRow(sql: string, m: EnvRow)
    requires Shape(sql, m, true)
    requires forall n: EnvRow :: Shape(sql, n, true) ==> m.start <= n.start
    ensures EnforcePortalMemberOnlyEnv(sql) == Ok(sql[..m.open] + DevValue + sql[m.close + 1..])
    ensures Shape(EnforcePortalMemberOnlyEnv(sql).value, DevRow(m), false)
    ensures Value(EnforcePortalMemberOnlyEnv(sql).value, DevRow(m)) == "dev"
  {
    var f := FirstRow(sql, 0, true);
    ShapeUnique(sql, f.value, m, true);
    SubstituteReplacesValue(sql, m);
  }

  /** When the portal text holds one row, the rewritten text holds one row
      too, with value `dev`, and it passes the script's check of that row. */
  lemma EnforceThenCheck(sql: string, m: EnvRow)
    requires Shape(sql, m, true)
    requires forall n: EnvRow :: Shape(sql, n, true) ==> n.start == m.start
    ensures EnforcePortalMemberOnlyEnv(sql).Ok?
    ensures FindRows(EnforcePortalMemberOnlyEnv(sql).value, 0) == [DevRow(m)]
    ensures CheckMemberOnlyEnv(EnforcePortalMemberOnlyEnv(sql).value) == Ok(())
  {
    EnforceRewritesFirstRow(sql, m);
    SubstituteReplacesValue(sql, m);
    SubstituteFindsOneRow(sql, m);
    var r := Substitute(sql, m);
    assert EnforcePortalMemberOnlyEnv(sql) == Ok(r);
    assert FindRows(r, 0) == [DevRow(m)];
  }

  /** `re.findall` on the substituted text of a text with one row finds the
      `'dev'` row alone. */
  lemma SubstituteFindsOneRow(sql: string, m: EnvRow)
    requires Shape(sql, m, true)
    requires forall n: EnvRow :: Shape(sql, n, true) ==> n.start == m.start
    ensures FindRows(Substitute(sql, m), 0) == [DevRow(m)]
  {
    var r := Substitute(sql, m);
    SubstituteReplacesValue(sql, m);
    forall y: EnvRow | Shape(r, y, false) ensures y.start == DevRow(m).start {
      SubstituteLeavesOneRow(sql, m, y);
    }
    FindRowsOnly(r, 0, DevRow(m));
  }

  /** A pattern without quotes is counted separately on either side of two
      quotes. */
  lemma CountAcrossQuotes(before: string, inner: string, after: string, p: string)
    requires |p| > 0 && '\'' !in p
    ensures Count(before + "'" + inner + "'" + after, p) == Count(before, p) + Count(inner, p) + Count(after, p)
  {
    assert before + "'" + inner + "'" + after == before + ['\''] + (inner + ['\''] + after);
    CountSplit(before, '\'', inner + ['\''] + after, p);
    CountSplit(inner, '\'', after, p);
  }

  /** The rewrite keeps the anchors outside the rewritten value: none can
      reach a quote. */
  lemma EnforceAnchorCount(sql: string, m: EnvRow)
    requires Shape(sql, m, true)
    requires forall n: EnvRow :: Shape(sql, n, true) ==> m.start <= n.start
    ensures Count(EnforcePortalMemberOnlyEnv(sql).value, FooterAnchor) ==
      Count(sql, FooterAnchor) - Count(Value(sql, m), FooterAnchor)
  {
    EnforceRewritesFirstRow(sql, m);
    SubstituteAnchorCount(sql, m);
  }

  lemma SubstituteAnchorCount(sql: string, m: EnvRow)
    requires m.open < m.close < |sql| && sql[m.open] == '\'' && sql[m.close] == '\''
    ensures Count(sql[..m.open] + DevValue + sql[m.close + 1..], FooterAnchor) ==
      Count(sql, FooterAnchor) - Count(Value(sql, m), FooterAnchor)
  {
    AnchorFacts();
    var before, inner, after := sql[..m.open], Value(sql, m), sql[m.close + 1..];
    QuotedParts(sql, m.open, m.close);
    CountAcrossQuotes(before, inner, after, FooterAnchor);
    DevValueParts(before, after);
    CountAcrossQuotes(before, "dev", after, FooterAnchor);
  }

  lemma DevValueParts(before: string, after: string)
    ensures before + DevValue + after == before + "'" + "dev" + "'" + after
  {
    assert DevValue == "'" + "dev" + "'";
  }

  /** A text cut at two quotes. */
  lemma QuotedParts(s: string, o: nat, c: nat)
    requires o < c < |s| && s[o] == '\'' && s[c] == '\''
    ensures s == s[..o] + "'" + s[o + 1..c] + "'" + s[c + 1..]
  {
    assert s == s[..o] + [s[o]] + s[o + 1..c] + [s[c]] + s[c + 1..];
  }

  /** The check of `_validate_sql_output`: `re.findall` with the `[^']+`
      pattern must find exactly one value, and it must be `dev`. */
  function CheckMemberOnlyEnv(sql: string): (r: Result<()>)
  {
    FindRowsAreMatches(sql, 0);
    var rows := FindRows(sql, 0);
    if |rows| != 1 then Err(MemberOnlyEnvCount(|rows|))
    else if Value(sql, rows[0]) != "dev" then Err(MemberOnlyEnvValue(Value(sql, rows[0])))
    else Ok(())
  }

  /** The check passes only on a text with exactly one non-empty-valued
      row, holding `dev`; on a text with a single such row it passes exactly
      when the value is `dev`, and on a text without one it reports zero
      entries. */
  lemma CheckMemberOnlyEnvMeaning(sql: string, m: EnvRow)
    ensures CheckMemberOnlyEnv(sql).Ok? ==>
      Shape(sql, FindRows(sql, 0)[0], false) && Value(sql, FindRows(sql, 0)[0]) == "dev"
    ensures CheckMemberOnlyEnv(sql).Ok? ==>
      forall n: EnvRow :: Shape(sql, n, false) ==> n == FindRows(sql, 0)[0]
    ensures Shape(sql, m, false) && (forall n: EnvRow :: Shape(sql, n, false) ==> n.start == m.start) ==>
      (CheckMemberOnlyEnv(sql).Ok? <==> Value(sql, m) == "dev")
    ensures (forall n: EnvRow :: !Shape(sql, n, false)) ==> CheckMemberOnlyEnv(sql) == Err(MemberOnlyEnvCount(0))
  {
    FindRowsAreMatches(sql, 0);
    if CheckMemberOnlyEnv(sql).Ok? {
      CheckPassesOnOneRow(sql);
    }
    if Shape(sql, m, false) && (forall n: EnvRow :: Shape(sql, n, false) ==> n.start == m.start) {
      FindRowsOnly(sql, 0, m);
    }
    if forall n: EnvRow :: !Shape(sql, n, false) {
      FindRowsNone(sql, 0);
    }
  }

  /** A text that passes the check holds no match besides the one row
      `re.findall` returns: `findall` saw no match before it or from its end
      on, and none can start inside a row whose value is `dev`. */
  lemma CheckPassesOnOneRow(sql: string)
    requires CheckMemberOnlyEnv(sql).Ok?
    ensures forall n: EnvRow :: Shape(sql, n, false) ==> n == FindRows(sql, 0)[0]
  {
    FindRowsSearches(sql, 0);
    var x := FirstRow(sql, 0, false).value;
    assert FindRows(sql, 0) == [x] + FindRows(sql, x.End());
    assert FindRows(sql, x.End()) == [];
    FindRowsEmptyIff(sql, x.End());
    forall n: EnvRow | Shape(sql, n, false) ensures n == x {
      NoRowInsideDevRow(sql, x, n);
      if n.start == x.start {
        ShapeUnique(sql, n, x, false);
      }
    }
  }

  /** The first occurrence of `p` is at or before every occurrence of `q`. */
  ghost predicate FirstNotAfter(s: string, p: string, q: string)
  {
    forall i: nat :: OccursAt(s, q, i) ==> exists j: nat :: j <= i && OccursAt(s, p, j)
  }

  /** `_validate_sql_output`: the anchor once, the trimmed overlay once
      (Python's `count`), the overlay's first occurrence not after the
      anchor's, and for the portal the member-only row check. */
  function ValidateSqlOutput(output: string, block: string, sqlName: string, requireEnvDev: bool): (r: Result<()>)
  {
    var anchors := Count(output, FooterAnchor);
    if anchors != 1 then Err(AnchorCount(sqlName, anchors))
    else
      var normalized := StripNewlines(block);
      var blocks := Count(output, normalized);
      if blocks != 1 then Err(BlockCount(sqlName, blocks))
      else
        CountedOccurs(output, FooterAnchor);
        CountedOccurs(output, normalized);
        if IndexOf(output, normalized) > IndexOf(output, FooterAnchor) then Err(BlockAfterFooter(sqlName))
        else if requireEnvDev then CheckMemberOnlyEnv(output)
        else Ok(())
  }

  /** Validation passes exactly when the anchor occurs once, the overlay is
      not just newlines, `count` finds it once, its first occurrence is not
      after the anchor, and, when asked, the member-only row check passes. */
  lemma ValidateMeaning(output: string, block: string, sqlName: string, requireEnvDev: bool)
    ensures ValidateSqlOutput(output, block, sqlName, requireEnvDev).Ok? <==>
      && OccursOnce(output, FooterAnchor)
      && !AllNewlines(block)
      && Count(output, StripNewlines(block)) == 1
      && FirstNotAfter(output, StripNewlines(block), FooterAnchor)
      && (requireEnvDev ==> CheckMemberOnlyEnv(output).Ok?)
  {
    AnchorFacts();
    CountOnceIff(output, FooterAnchor);
    var nb := StripNewlines(block);
    if OccursOnce(output, FooterAnchor) {
      var a := IndexOf(output, FooterAnchor);
      assert |output| > 0;
      if Count(output, nb) == 1 {
        CountedOccurs(output, nb);
        var b := IndexOf(output, nb);
        assert FirstNotAfter(output, nb, FooterAnchor) ==> b <= a;
        assert b <= a ==> FirstNotAfter(output, nb, FooterAnchor);
      }
    }
  }

  /** The order check fails only when the overlay's first occurrence lies
      after the anchor's: once `count` finds the anchor and the trimmed
      overlay once each, validation without the row check passes exactly
      when the overlay's first index is at most the anchor's, so an overlay
      found at the anchor's own index passes. */
  lemma ValidateAcceptsBlockAtAnchor(output: string, block: string, sqlName: string)
    requires Count(output, FooterAnchor) == 1 && Count(output, StripNewlines(block)) == 1
    ensures exists k: nat :: OccursAt(output, FooterAnchor, k)
    ensures exists k: nat :: OccursAt(output, StripNewlines(block), k)
    ensures ValidateSqlOutput(output, block, sqlName, false).Ok? <==>
      IndexOf(output, StripNewlines(block)) <= IndexOf(output, FooterAnchor)
  {
    var nb := StripNewlines(block);
    CountedOccurs(output, FooterAnchor);
    CountedOccurs(output, nb);
    assert ValidateSqlOutput(output, block, sqlName, false) ==
      if IndexOf(output, nb) > IndexOf(output, FooterAnchor) then Err(BlockAfterFooter(sqlName)) else Ok(());
  }

  /** An instance where the overlay and the anchor share their index: the
      output and the overlay are both the anchor itself, and it passes. */
  lemma BlockAtAnchorExample(sqlName: string)
    ensures ValidateSqlOutput(FooterAnchor, FooterAnchor, sqlName, false) == Ok(())
  {
    AnchorFacts();
    assert FooterAnchor[|FooterAnchor|..] == [];
    assert LStripNewlines(FooterAnchor) == FooterAnchor;
    assert FooterAnchor[|FooterAnchor| - 1] == ';';
    assert RStripNewlines(FooterAnchor) == FooterAnchor;
    assert StripNewlines(FooterAnchor) == FooterAnchor;
    assert Count(FooterAnchor, FooterAnchor) == 1;
    CountedOccurs(FooterAnchor, FooterAnchor);
    assert IndexOf(FooterAnchor, FooterAnchor) == 0;
  }

  /** An injected text passes validation without the row check exactly when
      `count` finds the overlay in it once, provided the overlay holds no
      anchor: the anchor and order checks always pass on it. */
  lemma InjectThenValidate(base: string, block: string, sqlName: string, name: string)
    requires InjectSampleData(base, block, sqlName).Ok?
    requires forall j: nat :: !OccursAt(StripNewlines(block), FooterAnchor, j)
    ensures ValidateSqlOutput(InjectSampleData(base, block, sqlName).value, block, name, false).Ok? <==>
      Count(InjectSampleData(base, block, sqlName).value, StripNewlines(block)) == 1
  {
    var out := InjectSampleData(base, block, sqlName).value;
    var nb := StripNewlines(block);
    AnchorFacts();
    InjectAnchorCount(base, block, sqlName);
    CountZeroIff(nb, FooterAnchor);
    assert Count(out, FooterAnchor) == 1;
    InjectBlockBeforeAnchor(base, block, sqlName);
  }

  /** `_assert_same_content`: the file must hold exactly the rendered text. */
  function AssertSameContent(path: string, expected: string, actual: string): (r: Result<()>)
    ensures r.Ok? <==> actual == expected
    ensures r.Err? ==> r.error == ContentMismatch(path)
  {
    if actual == expected then Ok(()) else Err(ContentMismatch(path))
  }
}
