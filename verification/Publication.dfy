/** The life of a package file, from upload or import through validation, the pool, its manifest and the index to the physical
    repository, and through the decisions that come after: routers/upload.py, services/importer_{apt,rpm,apk}.py,
    routers/decision_router.py and services/cve_rematch.py, one step at a time. The repository is a reprepro database and two
    trees of files: services/distributions.py, distributions_rpm.py and distributions_apk.py. */
module Publication {
  import FileNames
  import opened Sequences
  import opened Text

  /** A file's bytes; two files with the same digest are the same file. */
  type Content = string

  /** What a package says about itself. */
  datatype Key = Key(name: string, version: string, arch: string)

  /** The index has one entry a version, whatever the architecture. */
  datatype Release = Release(name: string, version: string)

  function ReleaseOf(k: Key): Release {
    Release(k.name, k.version)
  }

  /** The value of REPO_FORMAT. */
  datatype Mode = AptOnly | RpmOnly | ApkOnly | AptAndRpm | AllFormats

  predicate IsApt(mode: Mode) {
    mode == AptOnly || mode == AptAndRpm || mode == AllFormats
  }

  /** An installation: its formats, and what it reads in a package file. */
  datatype Site = Site(mode: Mode, reader: Content -> Key)

  datatype CveStatus = Approved | ToReview | Blocked

  datatype Validation = Validation(passed: bool, cve: CveStatus)

  datatype Status = Validated | PendingReview | AcceptedRisk | Excepted | UpgradeRequired | Quarantined

  datatype Manifest = Manifest(status: Status, filename: string, sha: Content, distribution: string)

  datatype Repo = Reprepro | RpmTree | ApkTree

  /** A place in the physical repository. Reprepro keeps one package of a name for each architecture; the trees keep files. */
  datatype Slot = Slot(repo: Repo, distribution: string, arch: string, file: string)

  type Live = map<Slot, Content>

  /** What became of a file handed to a repository tool: not taken, or in its place, the metadata being rebuilt or not. */
  datatype Tool = NotPlaced | Placed(indexed: bool)

  datatype Action = AcceptRisk | GrantException | Reject | RequireUpgrade | Invalid

  /** On what grounds a file was handed to the physical repository. */
  datatype Ground = Checked(cve: CveStatus) | Decided(key: Key, action: Action)

  datatype Handed = Handed(filename: string, content: Content, to: Repo, ground: Ground)

  datatype State = State(
    pool: map<string, Content>,
    manifests: map<Key, Manifest>,
    index: set<Release>,
    quarantine: map<string, Content>,
    live: Live,
    handed: seq<Handed>)

  /** `admissible`: distribution, file name and extension are accepted; `asked`, `version`: what the index row imported says;
      `fetched`: the download succeeded; `listing`: the order in which the manifests are listed; `byName`: the pool file that a
      search by package name finds first; `spared`: the places a tool fails to clear. */
  datatype Event =
    | Upload(filename: string, content: Content, distribution: string, admissible: bool, validation: Validation, tool: Tool)
    | Import(importer: Repo, asked: string, filename: string, content: Content, distribution: string, version: Option<string>,
             fetched: bool, validation: Validation, tool: Tool)
    | Decide(wanted: Key, action: Action, justified: bool, listing: seq<Key>, tool: Tool, spared: set<Slot>)
    | Quarantine(wanted: Key, listing: seq<Key>, byName: Option<string>, spared: set<Slot>)
    | Rematch(key: Key, flagged: bool)

  // ----- Places in the repository -----

  predicate HasExtension(filename: string, ext: string) {
    |ext| < |filename| && forall i | 0 <= i < |ext| :: LowerChar(filename[|filename| - |ext| + i]) == ext[i]
  }

  /** Extensions count in any case. */
  lemma ExtensionInAnyCase(stem: string, ext: string, written: string)
    requires stem != "" && |written| == |ext| && forall i | 0 <= i < |ext| :: LowerChar(written[i]) == ext[i]
    ensures HasExtension(stem + written, ext)
  {
    var f := stem + written;
    assert forall i | 0 <= i < |ext| :: f[|f| - |ext| + i] == written[i];
  }

  /** The repository whose clients read such a file. */
  function OwnRepo(filename: string): Repo {
    if HasExtension(filename, ".apk") then ApkTree else if HasExtension(filename, ".rpm") then RpmTree else Reprepro
  }

  /** Where an upload goes. */
  function RepoFor(mode: Mode, filename: string): Repo {
    if HasExtension(filename, ".apk") || mode == ApkOnly then ApkTree
    else if HasExtension(filename, ".rpm") || mode == RpmOnly then RpmTree
    else Reprepro
  }

  const RPM_ARCHITECTURES := ["x86_64", "aarch64", "noarch", "i686"]

  const APK_ARCHITECTURES := ["x86_64", "aarch64"]

  /** add-rpm.sh reads the end of the file name, and otherwise the package. */
  function ScriptArch(filename: string, k: Key): string {
    if EndsWith(filename, ".noarch.rpm") then "noarch"
    else if EndsWith(filename, ".aarch64.rpm") then "aarch64"
    else if EndsWith(filename, ".i686.rpm") then "i686"
    else if EndsWith(filename, ".x86_64.rpm") || k.arch == "" then "x86_64"
    else k.arch
  }

  /** `add_rpm_to_distrib` takes the first known architecture that the file name contains. */
  function NamedArch(filename: string, arches: seq<string>): string {
    if arches == [] then "x86_64"
    else if Contains(filename, "." + arches[0] + ".rpm") then arches[0]
    else NamedArch(filename, arches[1..])
  }

  function SlotFor(site: Site, repo: Repo, byScript: bool, filename: string, c: Content, distribution: string): Slot {
    var k := site.reader(c);
    match repo
    case Reprepro => Slot(Reprepro, distribution, k.arch, k.name)
    case RpmTree =>
      Slot(RpmTree, distribution, if byScript then ScriptArch(filename, k) else NamedArch(filename, RPM_ARCHITECTURES), filename)
    case ApkTree =>
      Slot(ApkTree, distribution, if k.arch == "" then "x86_64" else k.arch,
           FileNames.FileOf(FileNames.Package(k.name, k.version), ".apk"))
  }

  /** Reprepro takes Debian packages only. */
  predicate Takes(repo: Repo, filename: string) {
    repo == Reprepro ==> OwnRepo(filename) == Reprepro
  }

  /** A file that is taken goes to its place, over whatever was there. */
  function Put(
    site: Site, live: Live, repo: Repo, byScript: bool, filename: string, c: Content, distribution: string, tool: Tool): Live
  {
    if Takes(repo, filename) && tool.Placed? then live[SlotFor(site, repo, byScript, filename, c, distribution) := c] else live
  }

  /** Where an installation looks when a package is removed: some of its formats only, and there some architectures only. */
  predicate Reaches(mode: Mode, place: Slot) {
    match place.repo
    case Reprepro => IsApt(mode)
    case RpmTree => (mode == RpmOnly || mode == AptAndRpm) && place.arch in RPM_ARCHITECTURES
    case ApkTree => mode == ApkOnly && place.arch in APK_ARCHITECTURES
  }

  function Extension(repo: Repo): string {
    if repo == RpmTree then ".rpm" else ".apk"
  }

  /** What the removal of a package by name takes there: reprepro goes by name, the trees by the beginning of file names. */
  predicate Targets(mode: Mode, name: string, place: Slot) {
    && Reaches(mode, place)
    && if place.repo == Reprepro then place.file == name else FileNames.Matches(place.file, name, Extension(place.repo))
  }

  function Withdrawn(live: Live, mode: Mode, name: string, spared: set<Slot>): Live {
    map p | p in live && (p in spared || !Targets(mode, name, p)) :: live[p]
  }

  // ----- The parts steps are made of -----

  /** The repository has a package of that name and version, in a file named after them. */
  predicate Serves(site: Site, live: Live, name: string, version: string) {
    exists p | p in live :: p.repo == Reprepro && site.reader(live[p]).name == name
                            && FileNames.FileVersion(site.reader(live[p]).version) == version
  }

  /** The package is already there: the Alpine importer looks for its files in the pool, the Debian one for the very version of
      the row among the files of the repository; the RPM importer asks the package's index entry for members it does not have. */
  predicate Present(site: Site, s: State, e: Event)
    requires e.Import?
  {
    match e.importer
    case ApkTree => FileNames.Found(s.pool.Keys, e.asked, ".apk")
    case Reprepro => e.version.Some? && e.version.value != "" && Serves(site, s.live, e.asked, e.version.value)
    case RpmTree => false
  }

  /** The step brings a file in: its validation is made, and passes. */
  predicate Stores(site: Site, s: State, e: Event) {
    || (e.Upload? && e.admissible && e.filename !in s.pool && e.validation.passed)
    || (e.Import? && !Present(site, s, e) && e.fetched && e.validation.passed)
  }

  function FirstStatus(cve: CveStatus): Status {
    if cve == ToReview then PendingReview else Validated
  }

  /** Into the pool, the manifests and the index, and on to the repository unless the CVE policy asks for a review. */
  function Stored(
    site: Site, s: State, repo: Repo, byScript: bool, filename: string, c: Content, distribution: string, cve: CveStatus, tool: Tool)
    : State
  {
    var t := s.(pool := s.pool[filename := c],
                manifests := s.manifests[site.reader(c) := Manifest(FirstStatus(cve), filename, c, distribution)],
                index := s.index + {ReleaseOf(site.reader(c))});
    if cve == ToReview then t
    else t.(live := Put(site, s.live, repo, byScript, filename, c, distribution, tool),
            handed := s.handed + [Handed(filename, c, repo, Checked(cve))])
  }

  function FirstNamed(listing: seq<Key>, manifests: map<Key, Manifest>, name: string, version: string): Option<Key> {
    if listing == [] then None
    else if listing[0] in manifests && listing[0].name == name && listing[0].version == version then Some(listing[0])
    else FirstNamed(listing[1..], manifests, name, version)
  }

  /** The manifest asked for, or else the first one of that name and version whatever its architecture. */
  function Find(s: State, wanted: Key, listing: seq<Key>): Option<Key> {
    if wanted in s.manifests then Some(wanted) else FirstNamed(listing, s.manifests, wanted.name, wanted.version)
  }

  function StatusAfter(action: Action): Status
    requires action != Invalid
  {
    match action
    case AcceptRisk => AcceptedRisk
    case GrantException => Excepted
    case Reject => Quarantined
    case RequireUpgrade => UpgradeRequired
  }

  function SetAside(s: State, filename: string): State {
    if filename in s.pool
    then s.(pool := s.pool - {filename}, quarantine := s.quarantine[filename := s.pool[filename]])
    else s
  }

  /** The manifest a decision bears on, when it is taken into account at all. */
  function DecidedKey(s: State, e: Event): Option<Key>
    requires e.Decide?
  {
    if e.action == Invalid || !e.justified then None
    else
      var k := Find(s, e.wanted, e.listing);
      if k.Some? && k.value in s.manifests && s.manifests[k.value].status != Quarantined then k else None
  }

  /** A decision calls the tool of the installation, not that of the file. */
  function DecisionTool(mode: Mode): Repo {
    if IsApt(mode) then Reprepro else RpmTree
  }

  /** An accepted file is handed over if it is in the pool. */
  function Accepted(site: Site, s: State, m: Manifest, ground: Ground, tool: Tool): State {
    if m.filename !in s.pool then s
    else
      var c, to := s.pool[m.filename], DecisionTool(site.mode);
      s.(live := Put(site, s.live, to, false, m.filename, c, m.distribution, tool),
         handed := s.handed + [Handed(m.filename, c, to, ground)])
  }

  function AfterDecision(site: Site, s: State, e: Event): State
    requires e.Decide?
  {
    match DecidedKey(s, e)
    case None => s
    case Some(k) =>
      if k !in s.manifests || e.action == Invalid then s
      else
        var m := s.manifests[k];
        var t := s.(manifests := s.manifests[k := m.(status := StatusAfter(e.action))]);
        if e.action == AcceptRisk || e.action == GrantException then Accepted(site, t, m, Decided(k, e.action), e.tool)
        else if e.action == Reject then SetAside(t, m.filename).(live := Withdrawn(s.live, site.mode, e.wanted.name, e.spared))
        else t
  }

  /** The file a quarantine moves: the manifest's own if it is in the pool, or else what a search by name finds. */
  function FileToSetAside(s: State, e: Event): Option<string>
    requires e.Quarantine?
  {
    if e.wanted in s.manifests && s.manifests[e.wanted].filename in s.pool then Some(s.manifests[e.wanted].filename) else e.byName
  }

  function AfterQuarantine(site: Site, s: State, e: Event): State
    requires e.Quarantine?
  {
    var f := FileToSetAside(s, e);
    var t := (if f.Some? then SetAside(s, f.value) else s).(live := Withdrawn(s.live, site.mode, e.wanted.name, e.spared));
    var k := Find(s, e.wanted, e.listing);
    if k.Some? && k.value in s.manifests
    then t.(manifests := s.manifests[k.value := s.manifests[k.value].(status := Quarantined)]) else t
  }

  function After(site: Site, s: State, e: Event): State {
    match e
    case Upload(filename, c, distribution, admissible, v, tool) =>
      if !admissible || filename in s.pool then s
      else if !v.passed then s.(quarantine := s.quarantine[filename := c])
      else Stored(site, s, RepoFor(site.mode, filename), false, filename, c, distribution, v.cve, tool)
    case Import(importer, _, filename, c, distribution, _, fetched, v, tool) =>
      if Present(site, s, e) || !fetched || !v.passed then s
      else Stored(site, s, importer, true, filename, c, distribution, v.cve, tool)
    case Decide(_, _, _, _, _, _) => AfterDecision(site, s, e)
    case Quarantine(_, _, _, _) => AfterQuarantine(site, s, e)
    case Rematch(key, flagged) =>
      if key in s.manifests && s.manifests[key].status == Validated && flagged
      then s.(manifests := s.manifests[key := s.manifests[key].(status := PendingReview)]) else s
  }

  const Nothing := State(map[], map[], {}, map[], map[], [])

  function Run(site: Site, events: seq<Event>): State {
    if events == [] then Nothing else After(site, Run(site, events[..|events| - 1]), events[|events| - 1])
  }

  // ----- The code -----

  datatype Answer = BadRequest | AlreadyImported | Conflict | Rejected | Imported(status: Status, inRepo: bool)

  class Repository {
    const site: Site
    var pool: map<string, Content>
    var manifests: map<Key, Manifest>
    var index: set<Release>
    var quarantine: map<string, Content>
    var live: Live
    ghost var handed: seq<Handed>

    constructor (site: Site)
      ensures this.site == site && Value() == Nothing
    {
      this.site := site;
      pool, manifests, index, quarantine, live, handed := map[], map[], {}, map[], map[], [];
    }

    ghost function Value(): State
      reads this
    {
      State(pool, manifests, index, quarantine, live, handed)
    }

    method AddToRepo(repo: Repo, byScript: bool, filename: string, distribution: string, ghost ground: Ground, tool: Tool)
      requires filename in pool
      modifies this`live, this`handed
      ensures live == Put(site, old(live), repo, byScript, filename, pool[filename], distribution, tool)
      ensures handed == old(handed) + [Handed(filename, pool[filename], repo, ground)]
    {
      handed := handed + [Handed(filename, pool[filename], repo, ground)];
      if repo == Reprepro && OwnRepo(filename) != Reprepro {
        return;
      }
      if tool.Placed? {
        live := live[SlotFor(site, repo, byScript, filename, pool[filename], distribution) := pool[filename]];
      }
    }

    method Store(repo: Repo, byScript: bool, filename: string, c: Content, distribution: string, cve: CveStatus, tool: Tool)
      returns (status: Status)
      modifies this
      ensures Value() == Stored(site, old(Value()), repo, byScript, filename, c, distribution, cve, tool)
      ensures status == FirstStatus(cve)
    {
      pool := pool[filename := c];
      status := if cve == ToReview then PendingReview else Validated;
      manifests := manifests[site.reader(c) := Manifest(status, filename, c, distribution)];
      index := index + {ReleaseOf(site.reader(c))};
      if cve != ToReview {
        AddToRepo(repo, byScript, filename, distribution, Checked(cve), tool);
      }
    }

    method UploadPackage(filename: string, c: Content, distribution: string, admissible: bool, v: Validation, tool: Tool)
      returns (a: Answer)
      modifies this
      ensures Value() == After(site, old(Value()), Upload(filename, c, distribution, admissible, v, tool))
      ensures a == if !admissible then BadRequest
                   else if filename in old(pool) then (if old(pool)[filename] == c then AlreadyImported else Conflict)
                   else if !v.passed then Rejected
                   else Imported(FirstStatus(v.cve), v.cve != ToReview && tool == Placed(true))
    {
      hide Put;
      if !admissible {
        return BadRequest;
      }
      if filename in pool {
        return if pool[filename] == c then AlreadyImported else Conflict;
      }
      if !v.passed {
        quarantine := quarantine[filename := c];
        return Rejected;
      }
      var status := Store(RepoFor(site.mode, filename), false, filename, c, distribution, v.cve, tool);
      a := Imported(status, v.cve != ToReview && tool == Placed(true));
    }

    method ImportOne(
        importer: Repo, asked: string, filename: string, c: Content, distribution: string, version: Option<string>, fetched: bool,
        v: Validation, tool: Tool)
      returns (skipped: bool)
      modifies this
      ensures var e := Import(importer, asked, filename, c, distribution, version, fetched, v, tool);
              Value() == After(site, old(Value()), e) && skipped == Present(site, old(Value()), e)
      ensures skipped <==>
                match importer
                case ApkTree => exists f :: f in old(pool) && |f| >= |asked| + 5 && StartsWith(f, asked + "-") && EndsWith(f, ".apk")
                case Reprepro =>
                  version.Some? && version.value != ""
                  && exists p :: p in old(live) && p.repo == Reprepro && site.reader(old(live)[p]).name == asked
                                 && FileNames.FileVersion(site.reader(old(live)[p]).version) == version.value
                case RpmTree => false
      ensures skipped || !fetched || !v.passed ==> Value() == old(Value())
    {
      hide Put;
      skipped := match importer
        case ApkTree => FileNames.Found(pool.Keys, asked, ".apk")
        case Reprepro => version.Some? && version.value != "" && Serves(site, live, asked, version.value)
        case RpmTree => false;
      if skipped || !fetched || !v.passed {
        return;
      }
      var status := Store(importer, true, filename, c, distribution, v.cve, tool);
    }

    method FindManifest(wanted: Key, listing: seq<Key>) returns (k: Option<Key>)
      ensures k == Find(Value(), wanted, listing)
    {
      if wanted in manifests {
        return Some(wanted);
      }
      var i := 0;
      while i < |listing|
        invariant 0 <= i <= |listing|
        invariant FirstNamed(listing, manifests, wanted.name, wanted.version)
                  == FirstNamed(listing[i..], manifests, wanted.name, wanted.version)
      {
        if listing[i] in manifests && listing[i].name == wanted.name && listing[i].version == wanted.version {
          return Some(listing[i]);
        }
        i := i + 1;
      }
      k := None;
    }

    method MoveToQuarantine(filename: string)
      modifies this`pool, this`quarantine
      ensures Value() == SetAside(old(Value()), filename)
    {
      if filename in pool {
        quarantine := quarantine[filename := pool[filename]];
        pool := pool - {filename};
      }
    }

    /** Every file is looked at; in the trees the rest of its name does not matter. */
    method RemovePackage(name: string, spared: set<Slot>)
      modifies this`live
      ensures live == Withdrawn(old(live), site.mode, name, spared)
    {
      hide Targets;
      var left := live.Keys;
      while left != {}
        invariant left <= old(live).Keys
        invariant live == map p | p in old(live) && (p in left || p in spared || !Targets(site.mode, name, p)) :: old(live)[p]
        decreases |left|
      {
        var p :| p in left;
        left := left - {p};
        if p !in spared && Targets(site.mode, name, p) {
          live := live - {p};
        }
      }
    }

    method DecidePackage(wanted: Key, action: Action, justified: bool, listing: seq<Key>, tool: Tool, spared: set<Slot>)
      returns (taken: bool)
      modifies this
      ensures var e := Decide(wanted, action, justified, listing, tool, spared);
              Value() == After(site, old(Value()), e) && taken == DecidedKey(old(Value()), e).Some?
      ensures taken <==>
                && action != Invalid && justified
                && exists k :: IsAbout(old(Value()), wanted, listing, k) && old(manifests)[k].status != Quarantined
      ensures !taken ==> Value() == old(Value())
    {
      hide Put, Withdrawn, IsAbout;
      TargetIff(Value(), wanted, listing);
      if action == Invalid || !justified {
        return false;
      }
      var k := FindManifest(wanted, listing);
      FindIsThere(Value(), wanted, listing);
      if k.None? || manifests[k.value].status == Quarantined {
        return false;
      }
      var m := manifests[k.value];
      manifests := manifests[k.value := m.(status := StatusAfter(action))];
      if action == AcceptRisk || action == GrantException {
        if m.filename in pool {
          AddToRepo(if IsApt(site.mode) then Reprepro else RpmTree, false, m.filename, m.distribution, Decided(k.value, action), tool);
        }
      } else if action == Reject {
        MoveToQuarantine(m.filename);
        RemovePackage(wanted.name, spared);
      }
      taken := true;
    }

    method QuarantinePackage(wanted: Key, listing: seq<Key>, byName: Option<string>, spared: set<Slot>)
      modifies this
      ensures Value() == After(site, old(Value()), Quarantine(wanted, listing, byName, spared))
    {
      hide Withdrawn;
      var file := byName;
      if wanted in manifests && manifests[wanted].filename in pool {
        file := Some(manifests[wanted].filename);
      }
      RemovePackage(wanted.name, spared);
      if file.Some? {
        MoveToQuarantine(file.value);
      }
      var k := FindManifest(wanted, listing);
      FindIsThere(Value(), wanted, listing);
      if k.Some? {
        manifests := manifests[k.value := manifests[k.value].(status := Quarantined)];
      }
    }

    method RematchOne(key: Key, flagged: bool)
      modifies this
      ensures Value() == After(site, old(Value()), Rematch(key, flagged))
    {
      if key in manifests && manifests[key].status == Validated && flagged {
        manifests := manifests[key := manifests[key].(status := PendingReview)];
      }
    }
  }

  lemma FindIsThere(s: State, wanted: Key, listing: seq<Key>)
    ensures var k := Find(s, wanted, listing);
            k.Some? ==> k.value in s.manifests && k.value.name == wanted.name && k.value.version == wanted.version
  {
    FirstNamedIsThere(listing, s.manifests, wanted.name, wanted.version);
  }

  lemma {:induction false} FirstNamedIsThere(listing: seq<Key>, manifests: map<Key, Manifest>, name: string, version: string)
    ensures var k := FirstNamed(listing, manifests, name, version);
            k.Some? ==> k.value in manifests && k.value.name == name && k.value.version == version
  {
    if listing != [] {
      FirstNamedIsThere(listing[1..], manifests, name, version);
    }
  }

  /** The manifest a request is about: the very one it asks for if there is one, and otherwise the first in the listing with that
      name and version. */
  ghost predicate IsAbout(s: State, wanted: Key, listing: seq<Key>, k: Key) {
    && k in s.manifests
    && (k == wanted
        || (wanted !in s.manifests && k.name == wanted.name && k.version == wanted.version
            && exists i :: 0 <= i < |listing| && listing[i] == k && NoneNamedBefore(s, wanted, listing, i)))
  }

  ghost predicate NoneNamedBefore(s: State, wanted: Key, listing: seq<Key>, i: nat)
    requires i <= |listing|
  {
    forall j | 0 <= j < i :: !(listing[j] in s.manifests && listing[j].name == wanted.name && listing[j].version == wanted.version)
  }

  lemma {:induction false} FirstNamedIff(s: State, wanted: Key, listing: seq<Key>, k: Key)
    ensures FirstNamed(listing, s.manifests, wanted.name, wanted.version) == Some(k)
            <==> && k in s.manifests && k.name == wanted.name && k.version == wanted.version
                 && exists i :: 0 <= i < |listing| && listing[i] == k && NoneNamedBefore(s, wanted, listing, i)
  {
    if listing != [] {
      var rest := listing[1..];
      FirstNamedIff(s, wanted, rest, k);
      var first := listing[0] in s.manifests && listing[0].name == wanted.name && listing[0].version == wanted.version;
      forall i | 0 <= i < |rest| && rest[i] == k && NoneNamedBefore(s, wanted, rest, i)
        ensures listing[i + 1] == k && (!first ==> NoneNamedBefore(s, wanted, listing, i + 1))
      {
        forall j | 0 < j < i + 1 ensures listing[j] == rest[j - 1] {}
      }
      forall i | 0 < i < |listing| && listing[i] == k && NoneNamedBefore(s, wanted, listing, i)
        ensures rest[i - 1] == k && NoneNamedBefore(s, wanted, rest, i - 1) && !first
      {
        forall j | 0 <= j < i - 1 ensures rest[j] == listing[j + 1] {}
      }
      if listing[0] == k && k in s.manifests && k.name == wanted.name && k.version == wanted.version {
        assert NoneNamedBefore(s, wanted, listing, 0);
      }
    }
  }

  lemma FindIff(s: State, wanted: Key, listing: seq<Key>, k: Key)
    ensures Find(s, wanted, listing) == Some(k) <==> IsAbout(s, wanted, listing, k)
  {
    hide FirstNamed;
    FirstNamedIff(s, wanted, listing, k);
  }

  lemma TargetIff(s: State, wanted: Key, listing: seq<Key>)
    ensures var found := Find(s, wanted, listing);
            forall k :: IsAbout(s, wanted, listing, k) <==> found == Some(k)
  {
    forall k ensures IsAbout(s, wanted, listing, k) <==> Find(s, wanted, listing) == Some(k) {
      FindIff(s, wanted, listing, k);
    }
  }

  // ----- What is handed to the repository -----

  /** The grounds of a file handed over in this step: its own check, which asked for no review, or a decision to accept. */
  predicate Justified(h: Handed, e: Event) {
    match h.ground
    case Checked(cve) =>
      (e.Upload? || e.Import?) && e.validation.passed && cve == e.validation.cve && cve != ToReview
      && h.filename == e.filename && h.content == e.content
    case Decided(key, action) =>
      e.Decide? && e.justified && action == e.action && (action == AcceptRisk || action == GrantException)
      && key.name == e.wanted.name && key.version == e.wanted.version
  }

  /** The bytes handed over passed in this step, or were in the pool under that name. */
  predicate Backed(site: Site, s: State, e: Event, h: Handed) {
    (Stores(site, s, e) && e.content == h.content) || (h.filename in s.pool && s.pool[h.filename] == h.content)
  }

  /** One step hands over at most one file, with its grounds in that step. */
  lemma StepHands(site: Site, s: State, e: Event)
    ensures var t := After(site, s, e);
            t.handed == s.handed
            || (|t.handed| == |s.handed| + 1 && t.handed[..|s.handed|] == s.handed
                && Justified(t.handed[|s.handed|], e) && Backed(site, s, e, t.handed[|s.handed|]))
    ensures var t := After(site, s, e);
            |t.handed| > |s.handed| && t.handed[|s.handed|].ground.Decided? ==>
              var h := t.handed[|s.handed|];
              h.ground.key in s.manifests && s.manifests[h.ground.key].filename == h.filename
              && h.filename in s.pool && s.pool[h.filename] == h.content
  {
    hide Put, Withdrawn, Find, Present;
    if e.Decide? { FindIsThere(s, e.wanted, e.listing); }
  }

  /** A decision to accept a manifest whose file is in the pool. */
  ghost predicate AcceptsFile(s: State, e: Event, k: Key) {
    && e.Decide? && (e.action == AcceptRisk || e.action == GrantException) && e.justified
    && IsAbout(s, e.wanted, e.listing, k) && s.manifests[k].status != Quarantined && s.manifests[k].filename in s.pool
  }

  /** A step hands a file over exactly when it brings one in that needs no review, or accepts one that is in the pool; a decision
      hands it to the tool of the installation. */
  lemma HandsIff(site: Site, events: seq<Event>)
    requires events != []
    ensures var s, t, e := Run(site, events[..|events| - 1]), Run(site, events), events[|events| - 1];
            && (|t.handed| > |s.handed|
                <==> ((e.Upload? || e.Import?) && Stores(site, s, e) && e.validation.cve != ToReview) || exists k :: AcceptsFile(s, e, k))
            && (forall k | AcceptsFile(s, e, k) ::
                  t.handed == s.handed + [Handed(s.manifests[k].filename, s.pool[s.manifests[k].filename],
                                                 if site.mode == RpmOnly || site.mode == ApkOnly then RpmTree else Reprepro,
                                                 Decided(k, e.action))])
  {
    RunStep(site, events);
    var s, e := Run(site, events[..|events| - 1]), events[|events| - 1];
    if e.Decide? {
      DecisionHands(site, s, e);
    } else {
      assert forall k :: !AcceptsFile(s, e, k);
      hide Run, Put, Present, RepoFor, SlotFor, Withdrawn, Find, FileToSetAside;
    }
  }

  lemma DecisionHands(site: Site, s: State, e: Event)
    requires e.Decide?
    ensures var t := After(site, s, e);
            && (|t.handed| > |s.handed| <==> exists k :: AcceptsFile(s, e, k))
            && (forall k | AcceptsFile(s, e, k) ::
                  t.handed == s.handed + [Handed(s.manifests[k].filename, s.pool[s.manifests[k].filename],
                                                 if site.mode == RpmOnly || site.mode == ApkOnly then RpmTree else Reprepro,
                                                 Decided(k, e.action))])
  {
    TargetIff(s, e.wanted, e.listing);
    FindIsThere(s, e.wanted, e.listing);
    hide Put, Withdrawn, Find, IsAbout, SetAside;
    var found := Find(s, e.wanted, e.listing);
    if found.Some? { assert IsAbout(s, e.wanted, e.listing, found.value); }
    if exists k :: AcceptsFile(s, e, k) {
      var k :| AcceptsFile(s, e, k);
      assert found == Some(k);
    } else if found.Some? {
      assert !AcceptsFile(s, e, found.value);
    }
  }

  lemma StepPool(site: Site, s: State, e: Event, f: string)
    requires f in After(site, s, e).pool
    ensures var t := After(site, s, e);
            (f in s.pool && t.pool[f] == s.pool[f]) || (Stores(site, s, e) && e.content == t.pool[f])
  {
    if e.Upload? || e.Import? {
      BroughtPool(site, s, e);
      hide After, Stores;
    } else {
      hide Put, Withdrawn, Find, Stores, SlotFor, DecisionTool, FileToSetAside, StatusAfter;
    }
  }

  lemma BroughtPool(site: Site, s: State, e: Event)
    requires e.Upload? || e.Import?
    ensures After(site, s, e).pool == if Stores(site, s, e) then s.pool[e.filename := e.content] else s.pool
  {
    hide Put, Present, RepoFor, FirstStatus;
  }

  /** Step j of the run brought these bytes in: its validation passed them. */
  ghost predicate StoredAt(site: Site, events: seq<Event>, j: nat, c: Content) {
    j < |events| && Stores(site, Run(site, events[..j]), events[j]) && events[j].content == c
  }

  /** Every file in the pool passed validation, with those very bytes, at the step that brought it in. */
  lemma {:induction false} PoolIsStored(site: Site, events: seq<Event>, f: string) returns (j: nat)
    requires f in Run(site, events).pool
    ensures StoredAt(site, events, j, Run(site, events).pool[f])
  {
    var n := |events| - 1;
    var s := Run(site, events[..n]);
    StepPool(site, s, events[n], f);
    hide After, Stores;
    if f in s.pool && Run(site, events).pool[f] == s.pool[f] {
      j := PoolIsStored(site, events[..n], f);
      assert events[..n][..j] == events[..j];
    } else {
      j := n;
    }
  }

  /** The n-th file handed over in the run was handed over by step i, which gives its grounds. */
  ghost predicate HandedAt(site: Site, events: seq<Event>, i: nat, n: nat) {
    && i < |events| && n < |Run(site, events).handed|
    && Run(site, events[..i + 1]).handed == Run(site, events).handed[..n + 1]
    && Run(site, events[..i]).handed == Run(site, events).handed[..n]
    && Justified(Run(site, events).handed[n], events[i])
  }

  lemma RunStep(site: Site, events: seq<Event>)
    requires events != []
    ensures Run(site, events) == After(site, Run(site, events[..|events| - 1]), events[|events| - 1])
  {
  }

  lemma StoredAtLater(site: Site, events: seq<Event>, j: nat, c: Content)
    requires events != [] && StoredAt(site, events[..|events| - 1], j, c)
    ensures StoredAt(site, events, j, c)
  {
    hide Run, Stores;
    assert events[..|events| - 1][..j] == events[..j];
  }

  lemma HandedAtLater(site: Site, events: seq<Event>, i: nat, n: nat)
    requires events != [] && HandedAt(site, events[..|events| - 1], i, n)
    requires Run(site, events[..|events| - 1]).handed <= Run(site, events).handed
    ensures HandedAt(site, events, i, n)
    ensures Run(site, events).handed[n] == Run(site, events[..|events| - 1]).handed[n]
  {
    hide Run, Justified;
    var front := events[..|events| - 1];
    var a, b := Run(site, front).handed, Run(site, events).handed;
    assert front[..i] == events[..i] && front[..i + 1] == events[..i + 1];
    assert a[..n] == b[..n] && a[..n + 1] == b[..n + 1];
  }

  /** Every file handed over had its grounds in the step that handed it over, and its very bytes had passed validation by then. */
  lemma {:induction false} HandedIsJustified(site: Site, events: seq<Event>, n: nat) returns (i: nat, j: nat)
    requires n < |Run(site, events).handed|
    ensures HandedAt(site, events, i, n)
    ensures j <= i && StoredAt(site, events, j, Run(site, events).handed[n].content)
  {
    assert Run(site, []) == Nothing;
    var last := |events| - 1;
    var front, e := events[..last], events[last];
    hide After, Run, Stores, Justified, StoredAt, HandedAt;
    var s, t := Run(site, front), Run(site, events);
    RunStep(site, events);
    StepHands(site, s, e);
    if n < |s.handed| {
      i, j := HandedIsJustified(site, front, n);
      HandedAtLater(site, events, i, n);
      StoredAtLater(site, events, j, t.handed[n].content);
    } else {
      i := last;
      HandedNow(site, events, n);
      var h := t.handed[n];
      if Stores(site, s, e) && e.content == h.content {
        j := last;
        StoredNow(site, events);
      } else {
        j := PoolIsStored(site, front, h.filename);
        StoredAtLater(site, events, j, h.content);
      }
    }
  }

  lemma HandedNow(site: Site, events: seq<Event>, n: nat)
    requires events != []
    requires var s, t := Run(site, events[..|events| - 1]), Run(site, events);
             n == |s.handed| && |t.handed| == n + 1 && t.handed[..n] == s.handed && Justified(t.handed[n], events[|events| - 1])
    ensures HandedAt(site, events, |events| - 1, n)
  {
    hide Run, Justified;
    assert events[..|events|] == events && Run(site, events).handed[..n + 1] == Run(site, events).handed;
  }

  lemma StoredNow(site: Site, events: seq<Event>)
    requires events != [] && Stores(site, Run(site, events[..|events| - 1]), events[|events| - 1])
    ensures StoredAt(site, events, |events| - 1, events[|events| - 1].content)
  {
  }

  // ----- What is recorded -----

  lemma StepRecords(site: Site, s: State, e: Event)
    ensures var t := After(site, s, e);
            && (forall k :: k in t.manifests <==> k in s.manifests || (Stores(site, s, e) && site.reader(e.content) == k))
            && (forall r :: r in t.index <==> r in s.index || (Stores(site, s, e) && ReleaseOf(site.reader(e.content)) == r))
  {
    if e.Upload? || e.Import? {
      BroughtRecords(site, s, e);
    } else {
      OnlyBringsStore(site, s, e);
      NothingRecorded(site, s, e);
    }
    hide After, Stores;
  }

  lemma BroughtRecords(site: Site, s: State, e: Event)
    requires e.Upload? || e.Import?
    ensures var t := After(site, s, e);
            && t.index == s.index + (if Stores(site, s, e) then {ReleaseOf(site.reader(e.content))} else {})
            && t.manifests.Keys == s.manifests.Keys + if Stores(site, s, e) then {site.reader(e.content)} else {}
  {
    hide Put, Present, RepoFor, FirstStatus;
  }

  lemma NothingRecorded(site: Site, s: State, e: Event)
    requires !e.Upload? && !e.Import?
    ensures var t := After(site, s, e); t.index == s.index && t.manifests.Keys == s.manifests.Keys
  {
    hide Put, Withdrawn, Find, SlotFor, DecisionTool, FileToSetAside, StatusAfter;
    if e.Decide? { FindIsThere(s, e.wanted, e.listing); }
    if e.Quarantine? { FindIsThere(s, e.wanted, e.listing); }
  }

  /** The index holds exactly the versions of the manifests. */
  ghost predicate Indexed(s: State) {
    && (forall k | k in s.manifests :: ReleaseOf(k) in s.index)
    && forall r | r in s.index :: exists k :: k in s.manifests && ReleaseOf(k) == r
  }

  ghost predicate BroughtAt(site: Site, events: seq<Event>, j: nat, k: Key) {
    j < |events| && Stores(site, Run(site, events[..j]), events[j]) && site.reader(events[j].content) == k
  }

  lemma {:induction false} IndexIsOfManifests(site: Site, events: seq<Event>)
    ensures Indexed(Run(site, events))
  {
    if events != [] {
      IndexIsOfManifests(site, events[..|events| - 1]);
      StepRecords(site, Run(site, events[..|events| - 1]), events[|events| - 1]);
      hide After, Stores;
    }
  }

  /** Nothing that did not pass is ever recorded: each manifest was brought in by a step whose validation passed. */
  lemma {:induction false} RecordsAreBrought(site: Site, events: seq<Event>, k: Key) returns (j: nat)
    requires k in Run(site, events).manifests
    ensures BroughtAt(site, events, j, k)
  {
    var n := |events| - 1;
    var s := Run(site, events[..n]);
    StepRecords(site, s, events[n]);
    hide After, Stores;
    if k in s.manifests {
      j := RecordsAreBrought(site, events[..n], k);
      assert events[..n][..j] == events[..j];
    } else {
      j := n;
    }
  }

  predicate HasStatus(s: State, k: Key, status: Status) {
    k in s.manifests && s.manifests[k].status == status
  }

  // ----- The status of a manifest -----

  /** A step that settles the status of this manifest: the package is brought in; a valid and justified decision is taken about a
      manifest that is not quarantined; a quarantine is made; a validated manifest is flagged by a new match. */
  ghost predicate Settles(site: Site, s: State, e: Event, k: Key) {
    match e
    case Upload(_, c, _, _, _, _) => Stores(site, s, e) && site.reader(c) == k
    case Import(_, _, _, c, _, _, _, _, _) => Stores(site, s, e) && site.reader(c) == k
    case Decide(wanted, action, justified, listing, _, _) =>
      action != Invalid && justified && IsAbout(s, wanted, listing, k) && s.manifests[k].status != Quarantined
    case Quarantine(wanted, listing, _, _) => IsAbout(s, wanted, listing, k)
    case Rematch(key, flagged) => key == k && flagged && HasStatus(s, k, Validated)
  }

  /** The status that the step calls for. */
  ghost predicate CallsFor(e: Event, status: Status) {
    match e
    case Upload(_, _, _, _, v, _) => status == if v.cve == ToReview then PendingReview else Validated
    case Import(_, _, _, _, _, _, _, v, _) => status == if v.cve == ToReview then PendingReview else Validated
    case Decide(_, action, _, _, _, _) =>
      && (action == AcceptRisk ==> status == AcceptedRisk) && (action == GrantException ==> status == Excepted)
      && (action == Reject ==> status == Quarantined) && (action == RequireUpgrade ==> status == UpgradeRequired)
    case Quarantine(_, _, _, _) => status == Quarantined
    case Rematch(_, _) => status == PendingReview
  }

  lemma StepSettles(site: Site, s: State, e: Event, k: Key)
    ensures var t := After(site, s, e);
            if Settles(site, s, e, k) then k in t.manifests && CallsFor(e, t.manifests[k].status)
            else (k in t.manifests <==> k in s.manifests) && (k in t.manifests ==> t.manifests[k].status == s.manifests[k].status)
  {
    match e
    case Upload(_, _, _, _, _, _) => BroughtSettles(site, s, e, k);
    case Import(_, _, _, _, _, _, _, _, _) => BroughtSettles(site, s, e, k);
    case Decide(wanted, _, _, listing, _, _) => DecisionSettles(site, s, e, k);
    case Quarantine(wanted, listing, _, _) => QuarantineSettles(site, s, e, k);
    case Rematch(_, _) =>
      hide Stores;
  }

  lemma BroughtSettles(site: Site, s: State, e: Event, k: Key)
    requires e.Upload? || e.Import?
    ensures var t := After(site, s, e);
            if Stores(site, s, e) && site.reader(e.content) == k then
              k in t.manifests && t.manifests[k].status == if e.validation.cve == ToReview then PendingReview else Validated
            else (k in t.manifests <==> k in s.manifests) && (k in t.manifests ==> t.manifests[k] == s.manifests[k])
  {
    hide Put, Present, RepoFor;
  }

  lemma DecisionSettles(site: Site, s: State, e: Event, k: Key)
    requires e.Decide?
    ensures var t := After(site, s, e);
            if Settles(site, s, e, k) then k in t.manifests && CallsFor(e, t.manifests[k].status)
            else (k in t.manifests <==> k in s.manifests) && (k in t.manifests ==> t.manifests[k].status == s.manifests[k].status)
  {
    FindIff(s, e.wanted, e.listing, k);
    FindIsThere(s, e.wanted, e.listing);
    hide Put, Withdrawn, Find, IsAbout, SlotFor, DecisionTool;
  }

  lemma QuarantineSettles(site: Site, s: State, e: Event, k: Key)
    requires e.Quarantine?
    ensures var t := After(site, s, e);
            if Settles(site, s, e, k) then k in t.manifests && CallsFor(e, t.manifests[k].status)
            else (k in t.manifests <==> k in s.manifests) && (k in t.manifests ==> t.manifests[k].status == s.manifests[k].status)
  {
    FindIff(s, e.wanted, e.listing, k);
    FindIsThere(s, e.wanted, e.listing);
    hide Withdrawn, Find, IsAbout, FileToSetAside;
  }

  /** Step j is the last of the run that settled the status of k. */
  ghost predicate SettledAt(site: Site, events: seq<Event>, j: nat, k: Key) {
    && j < |events| && Settles(site, Run(site, events[..j]), events[j], k)
    && forall i | j < i < |events| :: !Settles(site, Run(site, events[..i]), events[i], k)
  }

  lemma SettledLater(site: Site, events: seq<Event>, j: nat, k: Key)
    requires events != [] && SettledAt(site, events[..|events| - 1], j, k)
    requires !Settles(site, Run(site, events[..|events| - 1]), events[|events| - 1], k)
    ensures SettledAt(site, events, j, k) && events[j] == events[..|events| - 1][j]
  {
    hide Run, Settles;
    var front := events[..|events| - 1];
    assert forall i | 0 <= i < |front| :: front[..i] == events[..i] && front[i] == events[i];
  }

  lemma SettledNow(site: Site, events: seq<Event>, k: Key)
    requires events != [] && Settles(site, Run(site, events[..|events| - 1]), events[|events| - 1], k)
    ensures SettledAt(site, events, |events| - 1, k)
  {
    hide Run, Settles;
  }

  lemma NothingHappened(site: Site)
    ensures Run(site, []) == Nothing && Run(site, []).manifests == map[]
  {
  }

  /** The status of every manifest is the one that the last step about it called for. */
  lemma {:induction false} StatusIsHistory(site: Site, events: seq<Event>, k: Key) returns (j: nat)
    requires k in Run(site, events).manifests
    ensures SettledAt(site, events, j, k) && CallsFor(events[j], Run(site, events).manifests[k].status)
  {
    hide Run, After, Settles, CallsFor;
    NothingHappened(site);
    var n := |events| - 1;
    var front := events[..n];
    RunStep(site, events);
    StepSettles(site, Run(site, front), events[n], k);
    if Settles(site, Run(site, front), events[n], k) {
      j := n;
      SettledNow(site, events, k);
    } else {
      j := StatusIsHistory(site, front, k);
      SettledLater(site, events, j, k);
    }
    hide SettledAt;
  }

  /** The other way round: a manifest is there as soon as a step settles it, with the status called for until another does. */
  lemma {:induction false} SettledStays(site: Site, before: seq<Event>, e: Event, after: seq<Event>, k: Key)
    requires Settles(site, Run(site, before), e, k)
    requires forall i | 0 <= i < |after| :: !Settles(site, Run(site, before + [e] + after[..i]), after[i], k)
    ensures var s := Run(site, before + [e] + after); k in s.manifests && CallsFor(e, s.manifests[k].status)
  {
    hide Run, After, Settles, CallsFor;
    if after == [] {
      assert before + [e] + after == before + [e] && [e][..0] == [] && before + [] == before;
      RunConcat(site, before, [e]);
      StepSettles(site, Run(site, before), e, k);
    } else {
      var n := |after| - 1;
      var front := after[..n];
      assert forall i | 0 <= i < n :: front[..i] == after[..i] && front[i] == after[i];
      SettledStays(site, before, e, front, k);
      RunConcat(site, before + [e], after);
      StepSettles(site, Run(site, before + [e] + front), after[n], k);
    }
  }

  /** Step j is the last that brought k in. */
  ghost predicate LastBroughtAt(site: Site, events: seq<Event>, j: nat, k: Key) {
    BroughtAt(site, events, j, k) && forall i: nat | j < i < |events| :: !BroughtAt(site, events, i, k)
  }

  lemma LastBroughtLater(site: Site, events: seq<Event>, j: nat, k: Key)
    requires events != [] && LastBroughtAt(site, events[..|events| - 1], j, k)
    requires !BroughtAt(site, events, |events| - 1, k)
    ensures LastBroughtAt(site, events, j, k) && events[j] == events[..|events| - 1][j]
  {
    hide Run, Stores;
    var front := events[..|events| - 1];
    assert forall i | 0 <= i < |front| :: front[..i] == events[..i] && front[i] == events[i];
    assert forall i: nat | i < |front| :: BroughtAt(site, events, i, k) <==> BroughtAt(site, front, i, k);
  }

  /** What a manifest says of its file is what the last step that brought the package in said. */
  lemma {:induction false} RecordIsLastBrought(site: Site, events: seq<Event>, k: Key) returns (j: nat)
    requires k in Run(site, events).manifests
    ensures LastBroughtAt(site, events, j, k)
    ensures var m := Run(site, events).manifests[k];
            m.filename == events[j].filename && m.sha == events[j].content && m.distribution == events[j].distribution
  {
    hide Run, After, Stores;
    NothingHappened(site);
    var n := |events| - 1;
    RunStep(site, events);
    StepDescribes(site, Run(site, events[..n]), events[n], k);
    if BroughtAt(site, events, n, k) {
      j := n;
    } else {
      j := RecordIsLastBrought(site, events[..n], k);
      LastBroughtLater(site, events, j, k);
    }
  }

  lemma StepDescribes(site: Site, s: State, e: Event, k: Key)
    requires k in After(site, s, e).manifests
    ensures var m := After(site, s, e).manifests[k];
            if Stores(site, s, e) && site.reader(e.content) == k
            then m.filename == e.filename && m.sha == e.content && m.distribution == e.distribution
            else k in s.manifests && m == s.manifests[k].(status := m.status)
  {
    if e.Upload? || e.Import? {
      BroughtDescribes(site, s, e, k);
    } else {
      OnlyBringsStore(site, s, e);
      NothingDescribed(site, s, e, k);
    }
    hide After, Stores;
  }

  lemma NothingDescribed(site: Site, s: State, e: Event, k: Key)
    requires !e.Upload? && !e.Import? && k in After(site, s, e).manifests
    ensures k in s.manifests
    ensures var m := After(site, s, e).manifests[k]; m == s.manifests[k].(status := m.status)
  {
    hide Put, Withdrawn, Find, SlotFor, DecisionTool, FileToSetAside, StatusAfter;
    if e.Decide? { FindIsThere(s, e.wanted, e.listing); }
    if e.Quarantine? { FindIsThere(s, e.wanted, e.listing); }
  }

  lemma OnlyBringsStore(site: Site, s: State, e: Event)
    ensures Stores(site, s, e) ==> e.Upload? || e.Import?
  {
  }

  lemma BroughtDescribes(site: Site, s: State, e: Event, k: Key)
    requires (e.Upload? || e.Import?) && k in After(site, s, e).manifests
    ensures var m := After(site, s, e).manifests[k];
            if Stores(site, s, e) && site.reader(e.content) == k
            then m.filename == e.filename && m.sha == e.content && m.distribution == e.distribution
            else k in s.manifests && m == s.manifests[k]
  {
    hide Put, Present, RepoFor;
  }

  // ----- Pool files over runs -----

  lemma RunConcat(site: Site, before: seq<Event>, after: seq<Event>)
    requires after != []
    ensures Run(site, before + after) == After(site, Run(site, before + after[..|after| - 1]), after[|after| - 1])
  {
    hide After;
    var all := before + after;
    assert all[|all| - 1] == after[|after| - 1] && all[..|all| - 1] == before + after[..|after| - 1];
  }

  /** A rejection taken into account of a manifest with this file. */
  ghost predicate RejectsFile(s: State, e: Event, f: string) {
    && e.Decide? && e.action == Reject && e.justified
    && exists k :: IsAbout(s, e.wanted, e.listing, k) && s.manifests[k].status != Quarantined && s.manifests[k].filename == f
  }

  /** A quarantine of this file: the one of the manifest asked for if it is in the pool, and otherwise the one found by name. */
  predicate QuarantinesFile(s: State, e: Event, f: string) {
    && e.Quarantine?
    && if e.wanted in s.manifests && s.manifests[e.wanted].filename in s.pool then s.manifests[e.wanted].filename == f
       else e.byName == Some(f)
  }

  /** The steps that change or remove a file of the pool: an import under its name that brings other bytes, a rejection or a
      quarantine. */
  ghost predicate ChangesFile(site: Site, s: State, e: Event, f: string)
    requires f in s.pool
  {
    || (e.Import? && Stores(site, s, e) && e.filename == f && e.content != s.pool[f])
    || RejectsFile(s, e, f) || QuarantinesFile(s, e, f)
  }

  lemma PoolFileChangesIff(site: Site, s: State, e: Event, f: string)
    requires f in s.pool
    ensures var t := After(site, s, e);
            !(f in t.pool && t.pool[f] == s.pool[f]) <==> ChangesFile(site, s, e, f)
  {
    match e
    case Upload(_, _, _, _, _, _) => BroughtChanges(site, s, e, f);
    case Import(_, _, _, _, _, _, _, _, _) => BroughtChanges(site, s, e, f);
    case Decide(_, _, _, _, _, _) => DecisionChanges(site, s, e, f);
    case Quarantine(_, _, _, _) => QuarantineChanges(site, s, e, f);
    case Rematch(_, _) =>
      hide Stores;
  }

  lemma BroughtChanges(site: Site, s: State, e: Event, f: string)
    requires f in s.pool && (e.Upload? || e.Import?)
    ensures After(site, s, e).pool == if Stores(site, s, e) then s.pool[e.filename := e.content] else s.pool
    ensures ChangesFile(site, s, e, f) <==> Stores(site, s, e) && e.filename == f && e.content != s.pool[f]
  {
    BroughtPool(site, s, e);
    hide After, Present;
  }

  lemma DecisionChanges(site: Site, s: State, e: Event, f: string)
    requires f in s.pool && e.Decide?
    ensures f in After(site, s, e).pool ==> After(site, s, e).pool[f] == s.pool[f]
    ensures ChangesFile(site, s, e, f) <==> f !in After(site, s, e).pool
    ensures f !in After(site, s, e).pool ==> f in After(site, s, e).quarantine && After(site, s, e).quarantine[f] == s.pool[f]
  {
    RejectsIff(s, e, f);
    hide Put, Withdrawn, SlotFor, DecisionTool, StatusAfter, Stores, RejectsFile, Find;
  }

  lemma RejectsIff(s: State, e: Event, f: string)
    requires e.Decide?
    ensures RejectsFile(s, e, f)
            <==> e.action == Reject && DecidedKey(s, e).Some? && DecidedKey(s, e).value in s.manifests
                 && s.manifests[DecidedKey(s, e).value].filename == f
  {
    FindIsThere(s, e.wanted, e.listing);
    var k := Find(s, e.wanted, e.listing);
    hide Find, IsAbout;
    if k.Some? { FindIff(s, e.wanted, e.listing, k.value); }
    forall k' | IsAbout(s, e.wanted, e.listing, k') ensures k == Some(k') { FindIff(s, e.wanted, e.listing, k'); }
  }

  lemma QuarantineChanges(site: Site, s: State, e: Event, f: string)
    requires f in s.pool && e.Quarantine?
    ensures f in After(site, s, e).pool ==> After(site, s, e).pool[f] == s.pool[f]
    ensures ChangesFile(site, s, e, f) <==> f !in After(site, s, e).pool
    ensures f !in After(site, s, e).pool ==> f in After(site, s, e).quarantine && After(site, s, e).quarantine[f] == s.pool[f]
  {
    hide Withdrawn, Find, Stores;
  }

  /** No bytes are lost: a file that leaves the pool goes to the quarantine under its name, and so does an upload that is rejected. */
  lemma BytesAreKept(site: Site, events: seq<Event>, f: string)
    requires events != []
    ensures var s, t, e := Run(site, events[..|events| - 1]), Run(site, events), events[|events| - 1];
            && (f in s.pool && f !in t.pool ==> f in t.quarantine && t.quarantine[f] == s.pool[f])
            && (e.Upload? && e.admissible && e.filename !in s.pool && !e.validation.passed ==>
                  t == s.(quarantine := s.quarantine[e.filename := e.content]))
  {
    var s, e := Run(site, events[..|events| - 1]), events[|events| - 1];
    RunStep(site, events);
    if f in s.pool {
      match e
      case Upload(_, _, _, _, _, _) => BroughtChanges(site, s, e, f);
      case Import(_, _, _, _, _, _, _, _, _) => BroughtChanges(site, s, e, f);
      case Decide(_, _, _, _, _, _) => DecisionChanges(site, s, e, f);
      case Quarantine(_, _, _, _) => QuarantineChanges(site, s, e, f);
      case Rematch(_, _) =>
    }
    hide Run, Stored, Present, AfterDecision, AfterQuarantine;
  }

  /** Over any stretch of a run a pool file is as it was, unless one of those steps was made on it. */
  lemma {:induction false} PoolFileKept(site: Site, before: seq<Event>, after: seq<Event>, f: string)
    requires f in Run(site, before).pool
    requires forall i | 0 <= i < |after| ::
               f in Run(site, before + after[..i]).pool ==> !ChangesFile(site, Run(site, before + after[..i]), after[i], f)
    ensures f in Run(site, before + after).pool && Run(site, before + after).pool[f] == Run(site, before).pool[f]
  {
    if after == [] {
      assert before + after == before;
    } else {
      var n := |after| - 1;
      var front := after[..n];
      assert forall i | 0 <= i < n :: front[..i] == after[..i] && front[i] == after[i];
      PoolFileKept(site, before, front, f);
      RunConcat(site, before, after);
      PoolFileChangesIff(site, Run(site, before + front), after[n], f);
    }
  }

  /** No run of uploads, however many are accepted, changes a file that was in the pool. */
  lemma UploadsKeepPool(site: Site, before: seq<Event>, uploads: seq<Event>, f: string)
    requires forall e | e in uploads :: e.Upload?
    requires f in Run(site, before).pool
    ensures f in Run(site, before + uploads).pool && Run(site, before + uploads).pool[f] == Run(site, before).pool[f]
  {
    hide Run;
    assert forall i | 0 <= i < |uploads| :: uploads[i] in uploads;
    PoolFileKept(site, before, uploads, f);
  }

  /** An upload that is not admissible, or whose name is taken, changes nothing; a rejected one reaches the quarantine alone; an
      accepted one is validated and handed over, or waits for its review and is not. */
  lemma UploadOutcome(site: Site, s: State, e: Event)
    requires e.Upload?
    ensures var t := After(site, s, e);
            && (!e.admissible || e.filename in s.pool ==> t == s)
            && (!Stores(site, s, e) ==> t == s.(quarantine := t.quarantine))
            && (Stores(site, s, e) ==>
                  && t.pool == s.pool[e.filename := e.content] && t.quarantine == s.quarantine
                  && if e.validation.cve == ToReview
                     then HasStatus(t, site.reader(e.content), PendingReview) && t.handed == s.handed && t.live == s.live
                     else HasStatus(t, site.reader(e.content), Validated) && |t.handed| == |s.handed| + 1)
  {
  }

  // ----- Quarantined versions -----

  /** A quarantined version stays so until it is brought in again: no decision, no new match of its CVEs frees it. */
  lemma {:induction false} QuarantineHolds(site: Site, before: seq<Event>, after: seq<Event>, k: Key)
    requires HasStatus(Run(site, before), k, Quarantined)
    requires forall i | 0 <= i < |after| :: !(Stores(site, Run(site, before + after[..i]), after[i]) && site.reader(after[i].content) == k)
    ensures HasStatus(Run(site, before + after), k, Quarantined)
  {
    hide Run, After, Stores, HasStatus;
    if after == [] {
      assert before + after == before;
    } else {
      var n := |after| - 1;
      var front := after[..n];
      assert forall i | 0 <= i < n :: front[..i] == after[..i] && front[i] == after[i];
      QuarantineHolds(site, before, front, k);
      RunConcat(site, before, after);
      StepQuarantined(site, Run(site, before + front), after[n], k);
    }
  }

  lemma StepQuarantined(site: Site, s: State, e: Event, k: Key)
    requires HasStatus(s, k, Quarantined) && !(Stores(site, s, e) && site.reader(e.content) == k)
    ensures HasStatus(After(site, s, e), k, Quarantined)
  {
    hide Put, Withdrawn, Find, Present;
  }

  // ----- What is served -----

  /** The removal this step asks for: a quarantine, or a rejection taken into account. */
  predicate Removes(mode: Mode, s: State, e: Event, place: Slot) {
    ((e.Quarantine?) || (e.Decide? && e.action == Reject && DecidedKey(s, e).Some?))
    && Targets(mode, e.wanted.name, place) && place !in e.spared
  }

  /** The file this step puts in its place, and the place. */
  function Placement(site: Site, s: State, e: Event): Option<(Slot, Content)> {
    if (e.Upload? || e.Import?) && Stores(site, s, e) && e.validation.cve != ToReview && e.tool.Placed? then
      var repo := if e.Upload? then RepoFor(site.mode, e.filename) else e.importer;
      if Takes(repo, e.filename) then Some((SlotFor(site, repo, e.Import?, e.filename, e.content, e.distribution), e.content)) else None
    else if e.Decide? && (e.action == AcceptRisk || e.action == GrantException) && DecidedKey(s, e).Some?
            && DecidedKey(s, e).value in s.manifests && e.tool.Placed? then
      var m, to := s.manifests[DecidedKey(s, e).value], DecisionTool(site.mode);
      if m.filename in s.pool && Takes(to, m.filename)
      then Some((SlotFor(site, to, false, m.filename, s.pool[m.filename], m.distribution), s.pool[m.filename])) else None
    else None
  }

  /** Exactly what is served after a step: what the step puts in its place, and all that it neither covers nor removes. A new
      match that calls for a review, and a decision that an upgrade is required, leave everything served. */
  lemma ServedIff(site: Site, s: State, e: Event, place: Slot, c: Content)
    ensures (place in After(site, s, e).live && After(site, s, e).live[place] == c)
            <==> if Placement(site, s, e).Some? && Placement(site, s, e).value.0 == place then Placement(site, s, e).value.1 == c
                 else place in s.live && s.live[place] == c && !Removes(site.mode, s, e, place)
  {
    hide SlotFor, Targets, RepoFor, OwnRepo, Present;
    if e.Decide? { FindIsThere(s, e.wanted, e.listing); }
  }

  /** A package is withdrawn with others exactly when a served package of its format has a name that goes on with a hyphen after
      its own, the trees' files being named after package and version. */
  lemma WithdrawsOthersIff(site: Site, s: State, e: Event, repo: Repo, packageOf: Slot -> FileNames.Package)
    requires e.Quarantine? && e.spared == {} && FileNames.NameShape(e.wanted.name)
    requires (repo == RpmTree && (site.mode == RpmOnly || site.mode == AptAndRpm)) || (repo == ApkTree && site.mode == ApkOnly)
    requires forall p | p in s.live && p.repo == repo ::
               && p.arch in (if repo == RpmTree then RPM_ARCHITECTURES else APK_ARCHITECTURES)
               && p.file == FileNames.FileOf(packageOf(p), Extension(repo))
               && FileNames.VersionShape(packageOf(p).version)
    ensures (forall p | p in s.live && p.repo == repo :: p !in After(site, s, e).live <==> packageOf(p).name == e.wanted.name)
            <==> forall p | p in s.live && p.repo == repo :: !StartsWith(packageOf(p).name, e.wanted.name + "-")
  {
    var name, ext := e.wanted.name, Extension(repo);
    forall p | p in s.live && p.repo == repo
      ensures p !in After(site, s, e).live <==> packageOf(p).name == name || StartsWith(packageOf(p).name, name + "-")
      ensures packageOf(p).name == name ==> !StartsWith(packageOf(p).name, name + "-")
    {
      ServedIff(site, s, e, p, s.live[p]);
      FileNames.MatchesIff(packageOf(p), name, ext);
      FileNames.BeginsIff(packageOf(p), name);
    }
  }

  /** The place is one of a package of that name. */
  predicate IsNamedAfter(place: Slot, p: FileNames.Package) {
    place.file == if place.repo == Reprepro then p.name else FileNames.FileOf(p, Extension(place.repo))
  }

  /** Where the installation does not look, what is served once stays served. */
  lemma {:induction false} NeverWithdrawn(site: Site, before: seq<Event>, after: seq<Event>, place: Slot)
    requires !Reaches(site.mode, place) && place in Run(site, before).live
    ensures place in Run(site, before + after).live
  {
    hide Run, After, Reaches;
    if after == [] {
      assert before + after == before;
    } else {
      var n := |after| - 1;
      NeverWithdrawn(site, before, after[..n], place);
      RunConcat(site, before, after);
      StepNeverWithdraws(site, Run(site, before + after[..n]), after[n], place);
    }
  }

  lemma StepNeverWithdraws(site: Site, s: State, e: Event, place: Slot)
    requires !Reaches(site.mode, place) && place in s.live
    ensures place in After(site, s, e).live
  {
    hide After, Placement, DecidedKey, Reaches;
    var put := Placement(site, s, e);
    ServedIff(site, s, e, place, if put.Some? && put.value.0 == place then put.value.1 else s.live[place]);
  }

  /** A quarantine of the package's name withdraws it exactly from where the installation looks. */
  lemma QuarantineWithdrawsIff(site: Site, s: State, e: Event, place: Slot, version: string)
    requires e.Quarantine? && place in s.live && place !in e.spared
    requires IsNamedAfter(place, FileNames.Package(e.wanted.name, version))
    ensures place !in After(site, s, e).live <==> Reaches(site.mode, place)
  {
    var p := FileNames.Package(e.wanted.name, version);
    ServedIff(site, s, e, place, s.live[place]);
    FileNames.MatchesIff(p, p.name, Extension(place.repo));
    FileNames.OwnBegins(p);
    hide After, Reaches, FileNames.Matches, FileNames.Begins, FileNames.FileOf;
  }

  /** A package that is served can be withdrawn, by any steps whatever, exactly from where the installation looks: a Debian package
      wherever Debian packages are served, an RPM package for RPM alone or beside Debian packages, an Alpine package for Alpine
      alone, and these in the architectures listed. */
  lemma WithdrawableIff(site: Site, before: seq<Event>, place: Slot, p: FileNames.Package)
    requires place in Run(site, before).live && IsNamedAfter(place, p)
    ensures (exists after :: place !in Run(site, before + after).live)
            <==> match place.repo
                 case Reprepro => site.mode != RpmOnly && site.mode != ApkOnly
                 case RpmTree =>
                   (site.mode == RpmOnly || site.mode == AptAndRpm) && place.arch in ["x86_64", "aarch64", "noarch", "i686"]
                 case ApkTree => site.mode == ApkOnly && place.arch in ["x86_64", "aarch64"]
  {
    hide Run, After, IsNamedAfter;
    if Reaches(site.mode, place) {
      var e := Quarantine(Key(p.name, "", ""), [], None, {});
      QuarantineWithdrawsIff(site, Run(site, before), e, place, p.version);
      RunConcat(site, before, [e]);
      assert [e][..0] == [] && before + [] == before;
      assert place !in Run(site, before + [e]).live;
    } else {
      forall after ensures place in Run(site, before + after).live {
        NeverWithdrawn(site, before, after, place);
      }
    }
  }

  // ----- Who fills a place -----

  /** Step j put the bytes that the place holds at the end of the run where they are. */
  ghost predicate PutAt(site: Site, events: seq<Event>, j: nat, place: Slot) {
    && j < |events| && place in Run(site, events).live
    && Placement(site, Run(site, events[..j]), events[j]) == Some((place, Run(site, events).live[place]))
  }

  /** Everything served was put in its place by a step of the run. */
  lemma {:induction false} ServedIsPut(site: Site, events: seq<Event>, place: Slot) returns (j: nat)
    requires place in Run(site, events).live
    ensures PutAt(site, events, j, place)
  {
    assert Run(site, []) == Nothing;
    var n := |events| - 1;
    var front, e := events[..n], events[n];
    RunStep(site, events);
    hide Run, After, Placement, Removes;
    var s, c := Run(site, front), Run(site, events).live[place];
    ServedIff(site, s, e, place, c);
    if Placement(site, s, e).Some? && Placement(site, s, e).value.0 == place {
      j := n;
    } else {
      j := ServedIsPut(site, front, place);
      assert front[..j] == events[..j];
    }
  }

  /** What decisions call for fills no place of any other format: what is served there came in by an upload or an import whose check
      asked for no review. So an Alpine package under review, or an RPM package where Debian packages are served too, is never
      served for having been accepted. */
  lemma ServedByCheck(site: Site, events: seq<Event>, place: Slot) returns (j: nat)
    requires place in Run(site, events).live
    requires || place.repo == ApkTree || (place.repo == RpmTree && site.mode != RpmOnly && site.mode != ApkOnly)
             || (place.repo == Reprepro && (site.mode == RpmOnly || site.mode == ApkOnly))
    ensures PutAt(site, events, j, place) && Stores(site, Run(site, events[..j]), events[j])
    ensures events[j].validation.cve != ToReview && events[j].content == Run(site, events).live[place]
  {
    j := ServedIsPut(site, events, place);
    hide Run, Stores, DecidedKey, Takes, RepoFor;
  }

  /** Every place holds the package it is named after, and what an upload puts there is of the format that the place serves, unless
      the installation serves one format only. */
  lemma PlacesHoldTheirOwn(site: Site, events: seq<Event>, place: Slot) returns (j: nat)
    requires place in Run(site, events).live
    ensures PutAt(site, events, j, place)
    ensures var k := site.reader(Run(site, events).live[place]);
            match place.repo
            case Reprepro => place.file == k.name && place.arch == k.arch
            case ApkTree =>
              place.file == k.name + "-" + k.version + ".apk" && place.arch == if k.arch == "" then "x86_64" else k.arch
            case RpmTree => events[j].Upload? || events[j].Import? ==> place.file == events[j].filename
    ensures events[j].Upload? && site.mode != RpmOnly && site.mode != ApkOnly ==>
              && (place.repo == ApkTree <==> HasExtension(events[j].filename, ".apk"))
              && (place.repo == RpmTree <==> HasExtension(events[j].filename, ".rpm") && !HasExtension(events[j].filename, ".apk"))
    ensures events[j].Upload? || events[j].Import? ==> place.distribution == events[j].distribution
  {
    j := ServedIsPut(site, events, place);
    hide Run, Stores, DecidedKey, Takes, HasExtension, ScriptArch, NamedArch;
  }

  /** Reprepro holds no file named as an RPM or Alpine package, whichever step handed it over. */
  lemma RepreproHoldsNoOthers(site: Site, events: seq<Event>, place: Slot) returns (j: nat, filename: string)
    requires place in Run(site, events).live && place.repo == Reprepro
    ensures PutAt(site, events, j, place)
    ensures !HasExtension(filename, ".rpm") && !HasExtension(filename, ".apk")
    ensures if events[j].Upload? || events[j].Import? then filename == events[j].filename
            else exists k :: AcceptsFile(Run(site, events[..j]), events[j], k) && Run(site, events[..j]).manifests[k].filename == filename
  {
    j := ServedIsPut(site, events, place);
    var s, e := Run(site, events[..j]), events[j];
    hide Run, Stores, HasExtension, RepoFor;
    if e.Decide? {
      TargetIff(s, e.wanted, e.listing);
      FindIsThere(s, e.wanted, e.listing);
      hide Find, IsAbout;
      var k := DecidedKey(s, e).value;
      filename := s.manifests[k].filename;
      assert AcceptsFile(s, e, k);
    } else {
      filename := e.filename;
    }
  }

  /** An RPM file whose name ends with a listed architecture and has no other goes to the same place by the script of the importer
      as by the tool of uploads and decisions. */
  lemma RpmPlacesAgree(site: Site, filename: string, c: Content, distribution: string, arch: string)
    requires arch in RPM_ARCHITECTURES && EndsWith(filename, "." + arch + ".rpm")
    requires forall b | b in RPM_ARCHITECTURES && b != arch :: !Contains(filename, "." + b + ".rpm")
    ensures var place := Slot(RpmTree, distribution, arch, filename);
            SlotFor(site, RpmTree, true, filename, c, distribution) == place == SlotFor(site, RpmTree, false, filename, c, distribution)
  {
    hide EndsWith, Contains, NamedArch, ScriptArch;
    EndIsContained(filename, "." + arch + ".rpm");
    NamedArchIs(filename, RPM_ARCHITECTURES, arch);
    ScriptArchIs(filename, site.reader(c), arch);
  }

  lemma {:induction false} NamedArchIs(filename: string, arches: seq<string>, arch: string)
    requires arch in arches && Contains(filename, "." + arch + ".rpm")
    requires forall b | b in arches && b != arch :: !Contains(filename, "." + b + ".rpm")
    ensures NamedArch(filename, arches) == arch
  {
    hide Contains;
    if arches[0] != arch {
      assert arches[0] in arches && forall b | b in arches[1..] :: b in arches;
      NamedArchIs(filename, arches[1..], arch);
    }
  }

  lemma ScriptArchIs(filename: string, k: Key, arch: string)
    requires arch in RPM_ARCHITECTURES && EndsWith(filename, "." + arch + ".rpm")
    requires forall b | b in RPM_ARCHITECTURES && b != arch :: !Contains(filename, "." + b + ".rpm")
    ensures ScriptArch(filename, k) == arch
  {
    hide EndsWith, Contains;
    ArchitectureEndings();
    EndsOnlyWith(filename, arch, "noarch");
    EndsOnlyWith(filename, arch, "aarch64");
    EndsOnlyWith(filename, arch, "i686");
    EndsOnlyWith(filename, arch, "x86_64");
  }

  lemma EndsOnlyWith(filename: string, arch: string, b: string)
    requires b in RPM_ARCHITECTURES && forall b | b in RPM_ARCHITECTURES && b != arch :: !Contains(filename, "." + b + ".rpm")
    ensures b != arch ==> !EndsWith(filename, "." + b + ".rpm")
  {
    hide EndsWith, Contains;
    if b != arch && EndsWith(filename, "." + b + ".rpm") { EndIsContained(filename, "." + b + ".rpm"); }
  }

  lemma ArchitectureEndings()
    ensures "." + "noarch" + ".rpm" == ".noarch.rpm" && "." + "aarch64" + ".rpm" == ".aarch64.rpm"
    ensures "." + "i686" + ".rpm" == ".i686.rpm" && "." + "x86_64" + ".rpm" == ".x86_64.rpm"
    ensures forall a :: a in RPM_ARCHITECTURES <==> a == "noarch" || a == "aarch64" || a == "i686" || a == "x86_64"
  {
  }

  lemma EndIsContained(s: string, part: string)
    requires EndsWith(s, part)
    ensures Contains(s, part)
  {
    assert StartsWith(s[|s| - |part|..], part);
  }

  /** An accepted file reaches the clients of its format exactly when the installation's tool for decisions is the one of that
      format: never for an Alpine package, nor for an RPM package where Debian packages are served too. */
  lemma AcceptedIsServedIff(site: Site, s: State, e: Event)
    requires e.Decide? && (e.action == AcceptRisk || e.action == GrantException) && e.tool.Placed?
    requires DecidedKey(s, e).Some? && DecidedKey(s, e).value in s.manifests
    requires s.manifests[DecidedKey(s, e).value].filename in s.pool
    ensures var m := s.manifests[DecidedKey(s, e).value];
            var own := SlotFor(site, OwnRepo(m.filename), false, m.filename, s.pool[m.filename], m.distribution);
            own !in s.live ==>
              (own in After(site, s, e).live <==> if IsApt(site.mode) then OwnRepo(m.filename) == Reprepro else OwnRepo(m.filename) == RpmTree)
  {
    FindIsThere(s, e.wanted, e.listing);
    hide OwnRepo;
  }

  /** So a package under review can be served: one published on upload and flagged by a later match. */
  lemma FlaggedIsStillServed(site: Site, before: seq<Event>, e: Event)
    requires e.Upload? && Stores(site, Run(site, before), e) && e.validation.cve != ToReview && e.tool.Placed?
    ensures var k := site.reader(e.content);
            var s := Run(site, before + [e, Rematch(k, true)]);
            && HasStatus(s, k, PendingReview)
            && var place := SlotFor(site, RepoFor(site.mode, e.filename), false, e.filename, e.content, e.distribution);
               place in s.live && s.live[place] == e.content
  {
    var two := [e, Rematch(site.reader(e.content), true)];
    RunConcat(site, before, [e]);
    RunConcat(site, before, two);
    assert two[..1] == [e] && [e][..0] == [] && before + [] == before;
    hide Run, SlotFor, Present;
    UploadIsTaken(site.mode, e.filename);
  }

  lemma UploadIsTaken(mode: Mode, filename: string)
    ensures Takes(RepoFor(mode, filename), filename)
  {
  }

  // ----- Looking for an Alpine package in the pool -----

  /** While the Alpine files of the pool are named after packages and versions that start with a digit, importing a package that
      is not among them is skipped exactly when the name of one of them goes on with a hyphen after its own. */
  lemma AbsentIsSkippedIff(site: Site, s: State, e: Event, ps: set<FileNames.Package>)
    requires e.Import? && e.importer == ApkTree && !FileNames.Has(ps, e.asked)
    requires (set f | f in s.pool.Keys && EndsWith(f, ".apk")) == FileNames.FilesOf(ps, ".apk")
    requires FileNames.NameShape(e.asked) && forall p | p in ps :: FileNames.VersionShape(p.version)
    ensures Present(site, s, e) <==> exists p :: p in ps && StartsWith(p.name, e.asked + "-")
  {
    FileNames.FoundRightByNamesIff(ps, e.asked, ".apk");
    var files := FileNames.FilesOf(ps, ".apk");
    assert forall f | f in s.pool.Keys && FileNames.Matches(f, e.asked, ".apk") :: f in files;
    assert forall f | f in files :: f in s.pool.Keys;
  }

  /** It is skipped for good: at any later point of the run, as long as the file that was taken for it has not been changed. */
  lemma SkippedForGood(site: Site, before: seq<Event>, after: seq<Event>, f: string, e: Event)
    requires e.Import? && e.importer == ApkTree && f in Run(site, before).pool && FileNames.Matches(f, e.asked, ".apk")
    requires forall i | 0 <= i < |after| ::
               f in Run(site, before + after[..i]).pool ==> !ChangesFile(site, Run(site, before + after[..i]), after[i], f)
    ensures Run(site, before + after + [e]) == Run(site, before + after)
  {
    PoolFileKept(site, before, after, f);
    RunConcat(site, before + after, [e]);
    assert [e][..0] == [] && before + after + [] == before + after;
  }

  // ----- Decisions and the bytes they are about -----

  /** The manifests' files hold the bytes the manifests describe. */
  ghost predicate Faithful(s: State) {
    forall k | k in s.manifests && s.manifests[k].filename in s.pool :: s.pool[s.manifests[k].filename] == s.manifests[k].sha
  }

  /** Whatever is brought in under a name is something the name allows. */
  ghost predicate Conforms(site: Site, events: seq<Event>, allowed: (string, Content) -> bool) {
    forall i | 0 <= i < |events| && Stores(site, Run(site, events[..i]), events[i]) :: allowed(events[i].filename, events[i].content)
  }

  /** A file name says which package it holds. */
  ghost predicate NamesTell(site: Site, allowed: (string, Content) -> bool) {
    forall f, a, b | allowed(f, a) && allowed(f, b) :: site.reader(a) == site.reader(b)
  }

  ghost function OwnerOf(site: Site, allowed: (string, Content) -> bool, f: string): Key {
    if exists a :: allowed(f, a) then (var a :| allowed(f, a); site.reader(a)) else Key("", "", "")
  }

  /** Each manifest is that of the package its file's name stands for. */
  ghost predicate Owned(site: Site, s: State, allowed: (string, Content) -> bool) {
    forall k | k in s.manifests :: OwnerOf(site, allowed, s.manifests[k].filename) == k
  }

  lemma StepFaithful(site: Site, s: State, e: Event, allowed: (string, Content) -> bool)
    requires Faithful(s) && Owned(site, s, allowed)
    requires Stores(site, s, e) ==> site.reader(e.content) == OwnerOf(site, allowed, e.filename)
    ensures Faithful(After(site, s, e)) && Owned(site, After(site, s, e), allowed)
  {
    hide After, Stores, OwnerOf;
    var t := After(site, s, e);
    if e.Upload? || e.Import? { BroughtPool(site, s, e); } else { OnlyBringsStore(site, s, e); }
    forall k | k in t.manifests
      ensures OwnerOf(site, allowed, t.manifests[k].filename) == k
      ensures t.manifests[k].filename in t.pool ==> t.pool[t.manifests[k].filename] == t.manifests[k].sha
    {
      StepDescribes(site, s, e, k);
      if t.manifests[k].filename in t.pool { StepPool(site, s, e, t.manifests[k].filename); }
    }
  }

  lemma {:induction false} RunFaithful(site: Site, events: seq<Event>, allowed: (string, Content) -> bool)
    requires NamesTell(site, allowed) && Conforms(site, events, allowed)
    ensures Faithful(Run(site, events)) && Owned(site, Run(site, events), allowed)
  {
    if events != [] {
      var n := |events| - 1;
      var front, s := events[..n], Run(site, events[..n]);
      assert forall i | 0 <= i < n :: front[..i] == events[..i] && front[i] == events[i];
      assert Conforms(site, front, allowed);
      RunFaithful(site, front, allowed);
      assert Stores(site, s, events[n]) ==> allowed(events[n].filename, events[n].content);
      hide After, Stores, Faithful, Owned, Conforms;
      StepFaithful(site, s, events[n], allowed);
    }
  }

  /** For any relation of the file names to the bytes they allow: in every run that respects it the files of the manifests hold the
      bytes the manifests describe, exactly when no name allows two packages. */
  lemma FaithfulIff(site: Site, allowed: (string, Content) -> bool)
    ensures (forall events | Conforms(site, events, allowed) :: Faithful(Run(site, events))) <==> NamesTell(site, allowed)
  {
    if NamesTell(site, allowed) {
      forall events | Conforms(site, events, allowed) ensures Faithful(Run(site, events)) {
        RunFaithful(site, events, allowed);
      }
    } else {
      var f, a, b :| allowed(f, a) && allowed(f, b) && site.reader(a) != site.reader(b);
      var two := Overwritten(site, allowed, f, a, b);
    }
  }

  lemma Overwritten(site: Site, allowed: (string, Content) -> bool, f: string, a: Content, b: Content) returns (two: seq<Event>)
    requires allowed(f, a) && allowed(f, b) && site.reader(a) != site.reader(b)
    ensures Conforms(site, two, allowed) && !Faithful(Run(site, two))
  {
    hide Put;
    var v := Validation(true, ToReview);
    two := [Import(Reprepro, "", f, a, "", None, true, v, NotPlaced), Import(Reprepro, "", f, b, "", None, true, v, NotPlaced)];
    assert two[..1] == [two[0]] && two[..1][..0] == [];
    var first := After(site, Nothing, two[0]);
    assert Run(site, two[..1]) == first && Run(site, two) == After(site, first, two[1]);
    var s := Run(site, two);
    assert site.reader(a) in s.manifests && s.manifests[site.reader(a)].filename == f && s.pool[f] == b;
    assert s.manifests[site.reader(a)].sha == a;
  }

  /** Where names tell, a decision to accept hands over the bytes that the manifest it was taken on describes. */
  lemma DecisionsAreFaithful(site: Site, events: seq<Event>, allowed: (string, Content) -> bool, n: nat) returns (i: nat)
    requires NamesTell(site, allowed) && Conforms(site, events, allowed)
    requires n < |Run(site, events).handed| && Run(site, events).handed[n].ground.Decided?
    ensures HandedAt(site, events, i, n)
    ensures var h, s := Run(site, events).handed[n], Run(site, events[..i]);
            h.ground.key in s.manifests && s.manifests[h.ground.key].sha == h.content
  {
    hide Run, After, Stores, Faithful, Owned, Conforms, NamesTell, StoredAt, Justified;
    var j;
    i, j := HandedIsJustified(site, events, n);
    ConformsFront(site, events, allowed, i);
    RunFaithful(site, events[..i], allowed);
    DecidedNow(site, events, i, n);
  }

  lemma ConformsFront(site: Site, events: seq<Event>, allowed: (string, Content) -> bool, i: nat)
    requires Conforms(site, events, allowed) && i <= |events|
    ensures Conforms(site, events[..i], allowed)
  {
    hide Run, Stores;
    var front := events[..i];
    assert forall m | 0 <= m < i :: front[..m] == events[..m] && front[m] == events[m];
  }

  lemma DecidedNow(site: Site, events: seq<Event>, i: nat, n: nat)
    requires HandedAt(site, events, i, n) && Run(site, events).handed[n].ground.Decided? && Faithful(Run(site, events[..i]))
    ensures var h, s := Run(site, events).handed[n], Run(site, events[..i]);
            h.ground.key in s.manifests && s.manifests[h.ground.key].sha == h.content
  {
    var s, next := Run(site, events[..i]), events[..i + 1];
    assert next[..i] == events[..i] && next[i] == events[i];
    RunStep(site, next);
    StepHands(site, s, events[i]);
    hide Run, After, Justified;
    assert Run(site, next).handed[n] == Run(site, events).handed[n];
  }

  /** Where they do not tell, an import can replace the file of a manifest under review: accepting that manifest then hands over
      the other bytes, which are themselves waiting for a review nobody made. */
  lemma AcceptedBytesCanDiffer(site: Site, a: Content, b: Content, f: string, d: string)
    requires site.reader(a) != site.reader(b)
    ensures var v := Validation(true, ToReview);
            var k := site.reader(a);
            var events := [Import(Reprepro, k.name, f, a, d, None, true, v, NotPlaced),
                           Import(Reprepro, k.name, f, b, d, None, true, v, NotPlaced),
                           Decide(k, AcceptRisk, true, [], Placed(true), {})];
            var s := Run(site, events);
            && s.handed == [Handed(f, b, DecisionTool(site.mode), Decided(k, AcceptRisk))]
            && HasStatus(s, site.reader(b), PendingReview)
  {
    var v := Validation(true, ToReview);
    var k := site.reader(a);
    var events := [Import(Reprepro, k.name, f, a, d, None, true, v, NotPlaced),
                   Import(Reprepro, k.name, f, b, d, None, true, v, NotPlaced),
                   Decide(k, AcceptRisk, true, [], Placed(true), {})];
    hide Put;
    assert events[..2] == [events[0], events[1]] && events[..2][..1] == [events[0]] && events[..2][..1][..0] == [];
    var first := After(site, Nothing, events[0]);
    assert Run(site, events[..2][..1]) == first;
    var second := After(site, first, events[1]);
    assert Run(site, events[..2]) == second;
    assert second.pool == map[f := b] && k in second.manifests;
  }
}
