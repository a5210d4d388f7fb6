/** `do_deploy` of `2-do_deploy_web_static.py` and `3-deploy_web_static.py`, and
    `deploy` of the latter. Both revisions upload the archive, unpack it into a
    release folder and point `/data/web_static/current` at it; they derive the file
    name and the release folder differently. Whether the archive exists locally is the
    input `archiveExists`; the success of each remote step is the oracle `ok`. */
module Deploy {
  import opened Outcomes
  import opened Text
  import opened PosixPath
  import opened Fabric
  import Pack

  const ReleasesDir := "/data/web_static/releases/"

  /** The eight commands both revisions issue, in order: upload, create the release
      folder, unpack, remove the upload, flatten `web_static/`, remove it, remove the
      old link, link the release. */
  function DeployPlan(archivePath: string, fileName: string, releaseFolder: string): (plan: seq<Command>)
    ensures |plan| == 8 && plan[0] == Put(archivePath, "/tmp/")
    ensures LinksRelease(plan, fileName, releaseFolder)
    ensures forall i :: 1 <= i < |plan| ==> plan[i].Run?
  {
    [ Put(archivePath, "/tmp/"),
      Run("mkdir -p " + releaseFolder),
      Run("tar -xzf /tmp/" + fileName + " -C " + releaseFolder),
      Run("rm /tmp/" + fileName),
      Run("mv " + releaseFolder + "/web_static/* " + releaseFolder),
      Run("rm -rf " + releaseFolder + "/web_static"),
      Run("rm -rf /data/web_static/current"),
      Run("ln -s " + releaseFolder + " /data/web_static/current") ]
  }

  /** Revision 2: `archive_filename[:-4]` of the basename. The stem is the file name
      without its last four characters, empty for names shorter than four; for a
      name ending in `.tgz` it is the name without the extension. */
  function ReleaseFolder2(archivePath: string): (r: string)
    ensures var name := Basename(archivePath);
      && |r| == |ReleasesDir| + (if |name| >= 4 then |name| - 4 else 0)
      && r[..|ReleasesDir|] == ReleasesDir
      && r[|ReleasesDir|..] == name[..|r| - |ReleasesDir|]
      && (|name| >= 4 && name[|name| - 4..] == ".tgz" ==> r[|ReleasesDir|..] + ".tgz" == name)
  {
    var name := Basename(archivePath);
    var stem := SlicePrefix(name, -4);
    assert |name| >= 4 ==> name == stem + name[|name| - 4..];
    ReleasesDir + stem
  }

  /** Revision 3: `archive_path.split('/')[-1]`, the same text as the basename. */
  function FileName3(archivePath: string): (r: string)
    ensures r == Basename(archivePath)
  {
    BasenameIsLastSplitPart(archivePath);
    Last(Split(archivePath, '/'))
  }

  /** Revision 3: `filename.split('.')[0]`. The stem is the longest `.`-free prefix of
      the file name: all of it when it has no `.`, otherwise the text before the
      first `.`. */
  function ReleaseFolder3(archivePath: string): (r: string)
    ensures |r| >= |ReleasesDir| && r[..|ReleasesDir|] == ReleasesDir
    ensures var name := FileName3(archivePath);
      var stem := r[|ReleasesDir|..];
      && |stem| <= |name| && stem == name[..|stem|] && '.' !in stem
      && (|stem| < |name| ==> name[|stem|] == '.')
  {
    var name := FileName3(archivePath);
    var parts := Split(name, '.');
    FirstPartIsPrefix(parts, '.');
    ReleasesDir + parts[0]
  }

  /** The first part of a join is a separator-free prefix that is followed by the
      separator unless it is the whole string. */
  lemma FirstPartIsPrefix(parts: seq<string>, sep: char)
    requires |parts| >= 1
    requires forall i :: 0 <= i < |parts| ==> sep !in parts[i]
    ensures var s := Join(parts, sep);
      |parts[0]| <= |s| && parts[0] == s[..|parts[0]|]
      && (|parts[0]| < |s| ==> s[|parts[0]|] == sep)
  {
    if |parts| > 1 {
      var s := Join(parts, sep);
      assert s == parts[0] + ([sep] + Join(parts[1..], sep));
    }
  }

  /** `do_deploy` of revision 2. */
  function DoDeploy2(archivePath: string, archiveExists: bool, ok: nat -> bool): (r: Execution)
    ensures !archiveExists ==> r.issued == [] && !r.success
    ensures archiveExists ==>
      RanInOrder(r, DeployPlan(archivePath, Basename(archivePath), ReleaseFolder2(archivePath)), ok)
  {
    if !archiveExists then Execution([], false)
    else
      var fileName := Basename(archivePath);
      Execute(DeployPlan(archivePath, fileName, ReleaseFolder2(archivePath)), ok)
  }

  /** `do_deploy` of revision 3. */
  function DoDeploy3(archivePath: string, archiveExists: bool, ok: nat -> bool): (r: Execution)
    ensures !archiveExists ==> r.issued == [] && !r.success
    ensures archiveExists ==>
      RanInOrder(r, DeployPlan(archivePath, FileName3(archivePath), ReleaseFolder3(archivePath)), ok)
  {
    if !archiveExists then Execution([], false)
    else
      var fileName := FileName3(archivePath);
      Execute(DeployPlan(archivePath, fileName, ReleaseFolder3(archivePath)), ok)
  }

  /** The plan unpacks the upload into the release folder, then replaces the
      `current` link by one to that folder. */
  predicate LinksRelease(issued: seq<Command>, fileName: string, releaseFolder: string)
  {
    && |issued| == 8
    && issued[2] == Run("tar -xzf /tmp/" + fileName + " -C " + releaseFolder)
    && issued[6] == Run("rm -rf /data/web_static/current")
    && issued[7] == Run("ln -s " + releaseFolder + " /data/web_static/current")
  }

  /** A successful revision-2 deployment ends by removing the old link and then
      linking the folder the archive was unpacked into. */
  lemma SuccessEndsWithLink2(archivePath: string, archiveExists: bool, ok: nat -> bool)
    ensures var r := DoDeploy2(archivePath, archiveExists, ok);
      r.success ==> LinksRelease(r.issued, Basename(archivePath), ReleaseFolder2(archivePath))
  {
    var r := DoDeploy2(archivePath, archiveExists, ok);
    var fileName, rf := Basename(archivePath), ReleaseFolder2(archivePath);
    if r.success {
      var plan := DeployPlan(archivePath, fileName, rf);
      assert r.issued == plan;
      assert LinksRelease(plan, fileName, rf);
    }
  }

  /** The same for revision 3, with its own file name and release folder. */
  lemma SuccessEndsWithLink3(archivePath: string, archiveExists: bool, ok: nat -> bool)
    ensures var r := DoDeploy3(archivePath, archiveExists, ok);
      r.success ==> LinksRelease(r.issued, FileName3(archivePath), ReleaseFolder3(archivePath))
  {
    var r := DoDeploy3(archivePath, archiveExists, ok);
    var fileName, rf := FileName3(archivePath), ReleaseFolder3(archivePath);
    if r.success {
      var plan := DeployPlan(archivePath, fileName, rf);
      assert r.issued == plan;
      assert LinksRelease(plan, fileName, rf);
    }
  }

  /** Revision 2 on a `.tgz` file: the stem is the name without the extension. */
  lemma ReleaseFolder2OfTgz(p: string, stem: string)
    requires Basename(p) == stem + ".tgz"
    ensures ReleaseFolder2(p) == ReleasesDir + stem
  {
    assert SlicePrefix(stem + ".tgz", -4) == stem;
  }

  /** Revision 3 on a file name with a `.`: the stem is the text before the first one. */
  lemma ReleaseFolder3OfDotted(p: string, head: string, rest: string)
    requires '.' !in head && Basename(p) == head + ("." + rest)
    ensures ReleaseFolder3(p) == ReleasesDir + head
  {
    assert FileName3(p) == head + ['.'] + rest;
    SplitAtFirst(head, '.', rest);
  }

  /** For `<dir>/<stem>.tgz` with a dot-free stem both derivations give the stem. */
  lemma StemsAgreeOnPlainNames(dir: string, stem: string)
    requires '/' !in stem && '.' !in stem
    ensures var p := dir + "/" + (stem + ".tgz");
      && ReleaseFolder2(p) == ReleasesDir + stem
      && ReleaseFolder3(p) == ReleasesDir + stem
  {
    var p := dir + "/" + (stem + ".tgz");
    BasenameOfJoin(dir, stem + ".tgz");
    ReleaseFolder2OfTgz(p, stem);
    ReleaseFolder3OfDotted(p, stem, "tgz");
  }

  /** For every path `do_pack` can return, the two stem derivations agree: both give
      `web_static_` followed by the timestamp. */
  lemma PackedPathStemsAgree(t: Pack.DateTime)
    requires Pack.Valid(t)
    ensures var p := Pack.PackedPath(t);
      && ReleaseFolder2(p) == ReleaseFolder3(p)
      && ReleaseFolder3(p) == ReleasesDir + ("web_static_" + Pack.Timestamp(t))
  {
    var name := Pack.ArchiveName(t);
    var stem := name[..25];
    assert stem == "web_static_" + Pack.Timestamp(t);
    assert '/' !in stem && '.' !in stem;
    assert Pack.PackedPath(t) == "versions" + "/" + (stem + ".tgz") by {
      assert name == stem + ".tgz";
    }
    StemsAgreeOnPlainNames("versions", stem);
  }

  /** Hence both revisions of `do_deploy` behave identically on `do_pack`'s output. */
  lemma PackedDeploysAgree(t: Pack.DateTime, archiveExists: bool, ok: nat -> bool)
    requires Pack.Valid(t)
    ensures DoDeploy2(Pack.PackedPath(t), archiveExists, ok) == DoDeploy3(Pack.PackedPath(t), archiveExists, ok)
  {
    PackedPathStemsAgree(t);
  }

  /** The derivations differ as soon as the stem itself holds a dot: for
      `<dir>/<a>.<b>.tgz` revision 2 keeps `<a>.<b>`, revision 3 only `<a>`. */
  lemma StemsDifferOnDottedNames(dir: string, a: string, b: string)
    requires '/' !in a && '/' !in b && '.' !in a
    ensures var p := dir + "/" + (a + "." + b + ".tgz");
      && ReleaseFolder2(p) == ReleasesDir + (a + "." + b)
      && ReleaseFolder3(p) == ReleasesDir + a
  {
    var name := a + "." + b + ".tgz";
    var p := dir + "/" + name;
    assert '/' !in name by {
      assert name == a + ['.'] + b + ".tgz";
    }
    BasenameOfJoin(dir, name);
    ReleaseFolder2OfTgz(p, a + "." + b);
    assert name == a + ("." + (b + ".tgz"));
    ReleaseFolder3OfDotted(p, a, b + ".tgz");
  }

  /** What `deploy` issued and whether it returned a value or let an exception out. */
  datatype DeployRun = DeployRun(issued: seq<Command>, outcome: Outcome<bool>)

  /** `deploy` of revision 3: pack, then deploy the archive unless packing returned
      `None`. */
  function Deploy(t: Pack.DateTime, packOk: nat -> bool, archiveExists: bool, ok: nat -> bool): (r: DeployRun)
    requires Pack.Valid(t)
    ensures var pack := Pack.DoPack(t, packOk);
      && (pack.outcome.Raised? ==> r == DeployRun(pack.issued, Raised))
      && (pack.outcome == Returned(None) ==> r == DeployRun(pack.issued, Returned(false)))
      && (pack.outcome.Returned? && pack.outcome.value.Some? ==>
            var d := DoDeploy3(Pack.PackedPath(t), archiveExists, ok);
            r == DeployRun(pack.issued + d.issued, Returned(d.success)))
    ensures r.outcome == Returned(true) ==>
      && packOk(0) && packOk(1) && archiveExists
      && forall i :: 0 <= i < 8 ==> ok(i)
  {
    var pack := Pack.DoPack(t, packOk);
    match pack.outcome
    case Raised => DeployRun(pack.issued, Raised)
    case Returned(None) => DeployRun(pack.issued, Returned(false))
    case Returned(Some(archivePath)) =>
      var d := DoDeploy3(archivePath, archiveExists, ok);
      DeployRun(pack.issued + d.issued, Returned(d.success))
  }
}
