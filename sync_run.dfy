/** `sync_from_apollo_release` over an abstract file system: the Apollo
    checkout is a read-only map from relative path to text, and the
    quick-start checkout is a `QuickStartTree` whose map the run rewrites. */
module SyncRun {

  import opened Text
  import opened Sync
  import opened EnvRows

  // Paths in the Apollo checkout.
  const ConfigSourcePath: string := "scripts/sql/profiles/mysql-default/apolloconfigdb.sql"
  const PortalSourcePath: string := "scripts/sql/profiles/mysql-default/apolloportaldb.sql"

  // Paths in the quick-start checkout.
  const ConfigOutputPath: string := "sql/apolloconfigdb.sql"
  const PortalOutputPath: string := "sql/apolloportaldb.sql"
  const ConfigOverlayPath: string := "sql/overlays/apolloconfigdb-sample-data.sql"
  const PortalOverlayPath: string := "sql/overlays/apolloportaldb-sample-data.sql"

  const ConfigName: string := "apolloconfigdb.sql"
  const PortalName: string := "apolloportaldb.sql"

  /** A rendered file: where it goes, its file name, its text, and the raw
      overlay that was spliced into it. */
  datatype Output = Output(path: string, name: string, content: string, block: string)

  /** `_render_release_sql`: the four inputs must exist, in this order; the
      config overlay is spliced into the config SQL, the portal overlay into
      the portal SQL, whose member-only row is then forced to `'dev'`. The
      outputs come in the order `sorted` gives their paths. */
  function Render(apollo: map<string, string>, tree: map<string, string>): (r: Result<seq<Output>>)
    ensures r.Ok? ==> |r.value| == 2
    ensures r.Ok? ==> r.value[0].path == ConfigOutputPath && r.value[1].path == PortalOutputPath
    ensures r.Ok? ==> ConfigOverlayPath in tree && PortalOverlayPath in tree
    ensures r.Ok? ==> r.value[0].block == tree[ConfigOverlayPath] && r.value[1].block == tree[PortalOverlayPath]
    ensures r.Ok? ==> ConfigSourcePath in apollo && PortalSourcePath in apollo
    ensures r.Ok? ==>
      InjectSampleData(apollo[ConfigSourcePath], tree[ConfigOverlayPath], ConfigName) == Ok(r.value[0].content)
    ensures r.Ok? ==> InjectSampleData(apollo[PortalSourcePath], tree[PortalOverlayPath], PortalName).Ok?
    ensures r.Ok? ==>
      EnforcePortalMemberOnlyEnv(InjectSampleData(apollo[PortalSourcePath], tree[PortalOverlayPath], PortalName).value)
        == Ok(r.value[1].content)
  {
    if ConfigSourcePath !in apollo then Err(MissingFile("Apollo config SQL", ConfigSourcePath))
    else if PortalSourcePath !in apollo then Err(MissingFile("Apollo portal SQL", PortalSourcePath))
    else if ConfigOverlayPath !in tree then Err(MissingFile("Quick-start config sample overlay", ConfigOverlayPath))
    else if PortalOverlayPath !in tree then Err(MissingFile("Quick-start portal sample overlay", PortalOverlayPath))
    else
      var configBlock := tree[ConfigOverlayPath];
      var portalBlock := tree[PortalOverlayPath];
      var config :- InjectSampleData(apollo[ConfigSourcePath], configBlock, ConfigName);
      var injected :- InjectSampleData(apollo[PortalSourcePath], portalBlock, PortalName);
      var portal :- EnforcePortalMemberOnlyEnv(injected);
      Ok([Output(ConfigOutputPath, ConfigName, config, configBlock),
          Output(PortalOutputPath, PortalName, portal, portalBlock)])
  }

  /** Rendering fails when one of the four inputs is missing, reporting the
      first missing one in the order config SQL, portal SQL, config overlay,
      portal overlay; otherwise it fails exactly when a splice or the
      rewrite does. */
  lemma RenderFailures(apollo: map<string, string>, tree: map<string, string>)
    ensures ConfigSourcePath !in apollo ==>
      Render(apollo, tree) == Err(MissingFile("Apollo config SQL", ConfigSourcePath))
    ensures ConfigSourcePath in apollo && PortalSourcePath !in apollo ==>
      Render(apollo, tree) == Err(MissingFile("Apollo portal SQL", PortalSourcePath))
    ensures ConfigSourcePath in apollo && PortalSourcePath in apollo && ConfigOverlayPath !in tree ==>
      Render(apollo, tree) == Err(MissingFile("Quick-start config sample overlay", ConfigOverlayPath))
    ensures (ConfigSourcePath in apollo && PortalSourcePath in apollo && ConfigOverlayPath in tree &&
             PortalOverlayPath !in tree) ==>
      Render(apollo, tree) == Err(MissingFile("Quick-start portal sample overlay", PortalOverlayPath))
    ensures (ConfigSourcePath in apollo && PortalSourcePath in apollo && ConfigOverlayPath in tree &&
             PortalOverlayPath in tree) ==>
      (Render(apollo, tree).Err? <==>
        || InjectSampleData(apollo[ConfigSourcePath], tree[ConfigOverlayPath], ConfigName).Err?
        || InjectSampleData(apollo[PortalSourcePath], tree[PortalOverlayPath], PortalName).Err?
        || EnforcePortalMemberOnlyEnv(InjectSampleData(apollo[PortalSourcePath], tree[PortalOverlayPath], PortalName).value).Err?)
  {
  }

  /** The rendered config file validates, with the overlay spliced before
      the anchor, exactly when `count` finds its overlay in it once,
      provided the overlay holds no anchor. */
  lemma RenderedConfigValidates(apollo: map<string, string>, tree: map<string, string>)
    requires Render(apollo, tree).Ok?
    requires forall j: nat :: !OccursAt(StripNewlines(tree[ConfigOverlayPath]), FooterAnchor, j)
    ensures ValidateSqlOutput(Render(apollo, tree).value[0].content, tree[ConfigOverlayPath], ConfigName, false).Ok? <==>
      Count(Render(apollo, tree).value[0].content, StripNewlines(tree[ConfigOverlayPath])) == 1
  {
    InjectThenValidate(apollo[ConfigSourcePath], tree[ConfigOverlayPath], ConfigName, ConfigName);
  }

  /** The rendered portal file holds a row of the check's pattern with value
      `dev`: the rewrite put it where the leftmost row of the spliced text
      was. */
  lemma RenderedPortalHoldsDevRow(apollo: map<string, string>, tree: map<string, string>)
    requires Render(apollo, tree).Ok?
    ensures exists m: EnvRow ::
      Shape(Render(apollo, tree).value[1].content, m, false) && Value(Render(apollo, tree).value[1].content, m) == "dev"
  {
    var injected := InjectSampleData(apollo[PortalSourcePath], tree[PortalOverlayPath], PortalName).value;
    var m := FirstRow(injected, 0, true).value;
    EnforceRewritesFirstRow(injected, m);
    assert Shape(Render(apollo, tree).value[1].content, DevRow(m), false);
  }

  /** Rendering reads the quick-start checkout only at the two overlays. */
  lemma RenderReadsOnlyOverlays(apollo: map<string, string>, t1: map<string, string>, t2: map<string, string>)
    requires ConfigOverlayPath in t1 <==> ConfigOverlayPath in t2
    requires PortalOverlayPath in t1 <==> PortalOverlayPath in t2
    requires ConfigOverlayPath in t1 ==> t1[ConfigOverlayPath] == t2[ConfigOverlayPath]
    requires PortalOverlayPath in t1 ==> t1[PortalOverlayPath] == t2[PortalOverlayPath]
    ensures Render(apollo, t1) == Render(apollo, t2)
  {
  }

  /** `s` comes strictly before `t` in code-point order, as Python compares
      strings. */
  predicate LexLess(s: string, t: string)
  {
    || (s == [] && t != [])
    || (s != [] && t != [] && (s[0] < t[0] || (s[0] == t[0] && LexLess(s[1..], t[1..]))))
  }

  /** The output paths are in sorted order and neither is an overlay, so a
      run never overwrites its own inputs. */
  lemma OutputPathsSorted()
    ensures LexLess(ConfigOutputPath, PortalOutputPath)
    ensures ConfigOutputPath != PortalOutputPath
    ensures ConfigOutputPath != ConfigOverlayPath && ConfigOutputPath != PortalOverlayPath
    ensures PortalOutputPath != ConfigOverlayPath && PortalOutputPath != PortalOverlayPath
  {
    assert ConfigOutputPath[10] == 'c' && PortalOutputPath[10] == 'p';
    assert ConfigOutputPath[..10] == PortalOutputPath[..10];
    PrefixThenLess(ConfigOutputPath, PortalOutputPath, 10);
  }

  lemma {:induction false} PrefixThenLess(s: string, t: string, k: nat)
    requires k < |s| && k < |t| && s[..k] == t[..k] && s[k] < t[k]
    ensures LexLess(s, t)
    decreases k
  {
    if k > 0 {
      assert s[0] == s[..k][0] == t[..k][0] == t[0];
      assert s[1..][..k - 1] == s[..k][1..];
      assert t[1..][..k - 1] == t[..k][1..];
      PrefixThenLess(s[1..], t[1..], k - 1);
    }
  }

  /** The rendered paths, in order. */
  function Paths(outs: seq<Output>): (ps: seq<string>)
    ensures |ps| == |outs| && forall i :: 0 <= i < |outs| ==> ps[i] == outs[i].path
  {
    if outs == [] then [] else [outs[0].path] + Paths(outs[1..])
  }

  /** No two outputs go to the same path. */
  predicate DistinctPaths(outs: seq<Output>)
  {
    forall i, j :: 0 <= i < j < |outs| ==> outs[i].path != outs[j].path
  }

  /** The quick-start checkout after writing `outs` in order. */
  function WriteAll(files: map<string, string>, outs: seq<Output>): map<string, string>
  {
    if outs == [] then files
    else WriteAll(files, outs[..|outs| - 1])[outs[|outs| - 1].path := outs[|outs| - 1].content]
  }

  /** After writing, each output path holds its text. */
  lemma {:induction false} WriteAllWrites(files: map<string, string>, outs: seq<Output>, i: nat)
    requires DistinctPaths(outs) && i < |outs|
    ensures outs[i].path in WriteAll(files, outs) && WriteAll(files, outs)[outs[i].path] == outs[i].content
  {
    var n := |outs| - 1;
    if i < n {
      WriteAllWrites(files, outs[..n], i);
    }
  }

  /** After writing, every other path is as it was. */
  lemma {:induction false} WriteAllKeeps(files: map<string, string>, outs: seq<Output>, p: string)
    requires forall i :: 0 <= i < |outs| ==> outs[i].path != p
    ensures p in WriteAll(files, outs) <==> p in files
    ensures p in files ==> WriteAll(files, outs)[p] == files[p]
  {
    if outs != [] {
      WriteAllKeeps(files, outs[..|outs| - 1], p);
    }
  }

  /** Writing texts that the checkout already holds changes nothing. */
  lemma {:induction false} WriteAllUnchanged(files: map<string, string>, outs: seq<Output>)
    requires forall o <- outs :: o.path in files && files[o.path] == o.content
    ensures WriteAll(files, outs) == files
  {
    if outs != [] {
      var init := outs[..|outs| - 1];
      assert forall o <- init :: o in outs;
      WriteAllUnchanged(files, init);
      assert outs[|outs| - 1] in outs;
    }
  }

  /** The per-file check of the second loop: the output must exist, hold the
      rendered text, and pass validation; the row check is made for the
      portal file only. */
  function CheckOutput(files: map<string, string>, o: Output): (r: Result<()>)
  {
    if o.path !in files then Err(MissingFile("Synced SQL output", o.path))
    else if AssertSameContent(o.path, o.content, files[o.path]).Err? then
      AssertSameContent(o.path, o.content, files[o.path])
    else ValidateSqlOutput(files[o.path], o.block, o.name, o.name == PortalName)
  }

  /** The second loop: the first failing output stops the run. */
  function CheckOutputs(files: map<string, string>, outs: seq<Output>): (r: Result<()>)
  {
    if outs == [] then Ok(())
    else if CheckOutput(files, outs[0]).Err? then CheckOutput(files, outs[0])
    else CheckOutputs(files, outs[1..])
  }

  /** The output passes when the checkout holds its rendered text and that
      text passes validation. */
  ghost predicate InSync(files: map<string, string>, o: Output)
  {
    && o.path in files
    && files[o.path] == o.content
    && ValidateSqlOutput(o.content, o.block, o.name, o.name == PortalName).Ok?
  }

  lemma CheckOutputMeaning(files: map<string, string>, o: Output)
    ensures CheckOutput(files, o).Ok? <==> InSync(files, o)
  {
  }

  /** The second loop passes exactly when every output is in sync. */
  lemma {:induction false} CheckOutputsOk(files: map<string, string>, outs: seq<Output>)
    ensures CheckOutputs(files, outs).Ok? <==> forall o <- outs :: InSync(files, o)
  {
    if outs != [] {
      CheckOutputMeaning(files, outs[0]);
      CheckOutputsOk(files, outs[1..]);
      assert forall o <- outs[1..] :: o in outs;
      assert forall o <- outs :: o == outs[0] || o in outs[1..];
    }
  }

  /** The checkout after the first loop. */
  function WrittenFiles(files: map<string, string>, outs: seq<Output>, checkOnly: bool): map<string, string>
  {
    if checkOnly then files else WriteAll(files, outs)
  }

  /** What a run that rendered `outs` returns: their paths, or the first
      failure of the second loop. */
  function RunOutcome(files: map<string, string>, outs: seq<Output>, checkOnly: bool): Result<seq<string>>
  {
    match CheckOutputs(WrittenFiles(files, outs, checkOnly), outs)
    case Err(e) => Err(e)
    case Ok(_) => Ok(Paths(outs))
  }

  /** The checkout after a run: written unless `checkOnly` or rendering
      failed. */
  function SyncedFiles(apollo: map<string, string>, files: map<string, string>, checkOnly: bool): map<string, string>
  {
    match Render(apollo, files)
    case Err(_) => files
    case Ok(outs) => WrittenFiles(files, outs, checkOnly)
  }

  /** What a run returns: the output paths, or the first failure. */
  function SyncOutcome(apollo: map<string, string>, files: map<string, string>, checkOnly: bool): Result<seq<string>>
  {
    match Render(apollo, files)
    case Err(e) => Err(e)
    case Ok(outs) => RunOutcome(files, outs, checkOnly)
  }

  /** The two rendered outputs, in path order. */
  predicate RenderedShape(outs: seq<Output>)
  {
    |outs| == 2 && outs[0].path == ConfigOutputPath && outs[1].path == PortalOutputPath
  }

  /** Writing the two outputs puts each text at its path and leaves every
      other file alone, the overlays included. */
  lemma WriteRendered(files: map<string, string>, outs: seq<Output>)
    requires RenderedShape(outs)
    ensures forall o <- outs :: o.path in WriteAll(files, outs) && WriteAll(files, outs)[o.path] == o.content
    ensures forall p :: p != ConfigOutputPath && p != PortalOutputPath ==>
      (p in WriteAll(files, outs) <==> p in files) &&
      (p in files ==> WriteAll(files, outs)[p] == files[p])
  {
    OutputPathsSorted();
    WriteTwo(files, outs);
  }

  lemma WriteTwo(files: map<string, string>, outs: seq<Output>)
    requires |outs| == 2 && outs[0].path != outs[1].path
    ensures forall o <- outs :: o.path in WriteAll(files, outs) && WriteAll(files, outs)[o.path] == o.content
    ensures forall p :: p != outs[0].path && p != outs[1].path ==>
      (p in WriteAll(files, outs) <==> p in files) &&
      (p in files ==> WriteAll(files, outs)[p] == files[p])
  {
    WriteAllWrites(files, outs, 0);
    WriteAllWrites(files, outs, 1);
    assert forall o <- outs :: o == outs[0] || o == outs[1];
    forall p | p != outs[0].path && p != outs[1].path
      ensures (p in WriteAll(files, outs) <==> p in files) && (p in files ==> WriteAll(files, outs)[p] == files[p])
    {
      WriteAllKeeps(files, outs, p);
    }
  }

  /** A run writes the rendered outputs and leaves every other file alone,
      the overlays included. */
  lemma SyncWritesOutputs(apollo: map<string, string>, files: map<string, string>)
    requires Render(apollo, files).Ok?
    ensures forall o <- Render(apollo, files).value ::
      o.path in SyncedFiles(apollo, files, false) && SyncedFiles(apollo, files, false)[o.path] == o.content
    ensures forall p :: p != ConfigOutputPath && p != PortalOutputPath ==>
      (p in SyncedFiles(apollo, files, false) <==> p in files) &&
      (p in files ==> SyncedFiles(apollo, files, false)[p] == files[p])
  {
    WriteRendered(files, Render(apollo, files).value);
  }

  /** Rerunning on the written checkout writes nothing new and reports the
      same outcome. */
  lemma RunAgain(files: map<string, string>, outs: seq<Output>)
    requires RenderedShape(outs)
    ensures WriteAll(WriteAll(files, outs), outs) == WriteAll(files, outs)
    ensures RunOutcome(WriteAll(files, outs), outs, false) == RunOutcome(files, outs, false)
    ensures RunOutcome(WriteAll(files, outs), outs, true) == RunOutcome(files, outs, false)
  {
    WriteRendered(files, outs);
    WriteAllUnchanged(WriteAll(files, outs), outs);
  }

  /** Running twice gives the checkout and the outcome of running once. */
  lemma SyncIdempotent(apollo: map<string, string>, files: map<string, string>)
    ensures SyncedFiles(apollo, SyncedFiles(apollo, files, false), false) == SyncedFiles(apollo, files, false)
    ensures SyncOutcome(apollo, SyncedFiles(apollo, files, false), false) == SyncOutcome(apollo, files, false)
  {
    var once := SyncedFiles(apollo, files, false);
    if Render(apollo, files).Ok? {
      var outs := Render(apollo, files).value;
      WriteRendered(files, outs);
      OutputPathsSorted();
      RenderReadsOnlyOverlays(apollo, files, once);
      RunAgain(files, outs);
    }
  }

  /** A check-only run after a run reports what that run reported. */
  lemma CheckAfterSync(apollo: map<string, string>, files: map<string, string>)
    ensures SyncOutcome(apollo, SyncedFiles(apollo, files, false), true) == SyncOutcome(apollo, files, false)
  {
    var once := SyncedFiles(apollo, files, false);
    if Render(apollo, files).Ok? {
      var outs := Render(apollo, files).value;
      WriteRendered(files, outs);
      OutputPathsSorted();
      RenderReadsOnlyOverlays(apollo, files, once);
      RunAgain(files, outs);
    }
  }

  /** A check-only run passes only when the checkout already holds every
      rendered text and each passes validation, so a run would write
      nothing new. */
  lemma CheckOnlyPassesWhenSynced(apollo: map<string, string>, files: map<string, string>)
    ensures SyncOutcome(apollo, files, true).Ok? <==>
      Render(apollo, files).Ok? && forall o <- Render(apollo, files).value :: InSync(files, o)
    ensures SyncOutcome(apollo, files, true).Ok? ==> SyncedFiles(apollo, files, false) == files
  {
    if Render(apollo, files).Ok? {
      var outs := Render(apollo, files).value;
      CheckOutputsOk(files, outs);
      if CheckOutputs(files, outs).Ok? {
        WriteAllUnchanged(files, outs);
      }
    }
  }

  /** The quick-start checkout, whose files a run rewrites. */
  class QuickStartTree {
    var files: map<string, string>

    constructor(initial: map<string, string>)
      ensures files == initial
    {
      files := initial;
    }

    /** `sync_from_apollo_release`: render, write each output in path order
        unless `checkOnly`, then re-read, compare and validate each output in
        the same order. */
    method Sync(apollo: map<string, string>, checkOnly: bool) returns (r: Result<seq<string>>)
      modifies this
      ensures files == SyncedFiles(apollo, old(files), checkOnly)
      ensures checkOnly ==> files == old(files)
      ensures r == SyncOutcome(apollo, old(files), checkOnly)
    {
      var rendered := Render(apollo, files);
      if rendered.Err? {
        return Err(rendered.error);
      }
      var outs := rendered.value;
      if !checkOnly {
        WriteOutputs(outs);
      }
      var checked := CheckOutputsNow(outs);
      if checked.Err? {
        return Err(checked.error);
      }
      return Ok(Paths(outs));
    }

    /** The first loop: each output's text is written to its path, in order. */
    method WriteOutputs(outs: seq<Output>)
      modifies this
      ensures files == WriteAll(old(files), outs)
    {
      var i := 0;
      while i < |outs|
        invariant 0 <= i <= |outs|
        invariant files == WriteAll(old(files), outs[..i])
      {
        assert outs[..i + 1][..i] == outs[..i];
        files := files[outs[i].path := outs[i].content];
        i := i + 1;
      }
      assert outs[..|outs|] == outs;
    }

    /** The second loop: each output is re-read, compared with its rendered
        text and validated, in order; the first failure ends the run. */
    method CheckOutputsNow(outs: seq<Output>) returns (r: Result<()>)
      ensures r == CheckOutputs(files, outs)
      ensures r.Ok? <==> forall o <- outs :: InSync(files, o)
    {
      CheckOutputsOk(files, outs);
      var j := 0;
      while j < |outs|
        invariant 0 <= j <= |outs|
        invariant CheckOutputs(files, outs) == CheckOutputs(files, outs[j..])
      {
        var o := outs[j];
        assert outs[j..][0] == o && outs[j..][1..] == outs[j + 1..];
        if o.path !in files {
          return Err(MissingFile("Synced SQL output", o.path));
        }
        var actual := files[o.path];
        var same := AssertSameContent(o.path, o.content, actual);
        if same.Err? {
          return Err(same.error);
        }
        var valid := ValidateSqlOutput(actual, o.block, o.name, o.name == PortalName);
        if valid.Err? {
          return Err(valid.error);
        }
        j := j + 1;
      }
      return Ok(());
    }
  }
}
