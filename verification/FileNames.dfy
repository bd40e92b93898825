/** Package files are looked up by name with patterns like `f"{name}-*.apk"`: in the pool by the Alpine importer, and in the
    repository trees when a package is withdrawn. The files are named after package and version. */
module FileNames {
  import opened Sequences
  import opened Text

  /** `glob(f"{name}-*{ext}")` finds the file. */
  predicate Matches(file: string, name: string, ext: string) {
    |name| + 1 + |ext| <= |file| && StartsWith(file, name + "-") && EndsWith(file, ext)
  }

  predicate Found(files: set<string>, name: string, ext: string) {
    exists f | f in files :: Matches(f, name, ext)
  }

  /** The version as the file names of Debian packages carry it: the epoch and its colon are left out. */
  function FileVersion(version: string): string {
    if ':' in version then version[FirstIndex(version, ':') + 1..] else version
  }

  /** What a file name is made of; for an RPM package the version text goes on with release and architecture. */
  datatype Package = Package(name: string, version: string)

  function FileOf(p: Package, ext: string): string {
    p.name + "-" + p.version + ext
  }

  function FilesOf(ps: set<Package>, ext: string): set<string> {
    set p | p in ps :: FileOf(p, ext)
  }

  ghost predicate Has(ps: set<Package>, name: string) {
    exists p :: p in ps && p.name == name
  }

  /** The name and version of a package, put together, begin with another name and its hyphen. */
  predicate Begins(p: Package, name: string) {
    StartsWith(p.name + "-" + p.version, name + "-")
  }

  lemma MatchesIff(p: Package, name: string, ext: string)
    ensures Matches(FileOf(p, ext), name, ext) <==> Begins(p, name)
  {
    var file, stem := FileOf(p, ext), p.name + "-" + p.version;
    assert file == stem + ext && file[|file| - |ext|..] == ext;
    if |name| + 1 <= |stem| {
      assert file[..|name| + 1] == stem[..|name| + 1];
    }
  }

  lemma FoundIff(ps: set<Package>, name: string, ext: string)
    ensures Found(FilesOf(ps, ext), name, ext) <==> exists p :: p in ps && Begins(p, name)
  {
    hide Matches, FileOf, Begins;
    forall p | p in ps ensures Matches(FileOf(p, ext), name, ext) <==> Begins(p, name) {
      MatchesIff(p, name, ext);
    }
    forall p | p in ps && Begins(p, name) ensures Found(FilesOf(ps, ext), name, ext) {
      assert FileOf(p, ext) in FilesOf(ps, ext);
    }
  }

  /** Looking for a package among the files of any packages is right exactly when a file of it is there or the name and version
      of no package there begin with its name and a hyphen. */
  lemma FoundRightIff(ps: set<Package>, name: string, ext: string)
    ensures (Found(FilesOf(ps, ext), name, ext) <==> Has(ps, name))
            <==> Has(ps, name) || forall p | p in ps :: !Begins(p, name)
  {
    FoundIff(ps, name, ext);
    hide Found, Begins;
    forall p | p in ps && p.name == name ensures Begins(p, name) {
      OwnBegins(p);
    }
  }

  lemma OwnBegins(p: Package)
    ensures Begins(p, p.name)
  {
    assert p.name + "-" + p.version == (p.name + "-") + p.version;
  }

  // ----- Names and versions as the distributions write them -----

  predicate IsDigit(c: char) {
    '0' <= c <= '9'
  }

  predicate VersionShape(version: string) {
    version != "" && IsDigit(version[0])
  }

  /** No hyphen is followed by a digit. */
  predicate NameShape(name: string) {
    forall i | 0 < i < |name| && name[i - 1] == '-' :: !IsDigit(name[i])
  }

  lemma BeginsIff(p: Package, name: string)
    requires VersionShape(p.version) && NameShape(name)
    ensures Begins(p, name) <==> p.name == name || StartsWith(p.name, name + "-")
  {
    var stem, n := p.name + "-" + p.version, |p.name|;
    assert stem[n] == '-' && stem[n + 1] == p.version[0];
    assert stem[..n] == p.name;
    if |name| < n {
      assert stem[..|name| + 1] == p.name[..|name| + 1];
    } else if |name| == n {
      assert stem[..n + 1] == p.name + "-";
      assert (name + "-")[..n] == name && (name + "-")[..n] == name;
    } else if Begins(p, name) {
      LongerName(p, name);
    } else {
      assert !StartsWith(p.name, name + "-");
    }
  }

  lemma LongerName(p: Package, name: string)
    requires VersionShape(p.version) && |name| > |p.name| && Begins(p, name)
    ensures !NameShape(name)
  {
    var stem, n, asked := p.name + "-" + p.version, |p.name|, name + "-";
    assert asked[|name|] == '-';
    assert stem[n] == '-' && stem[n + 1] == p.version[0];
    assert forall i | 0 <= i <= |name| :: stem[i] == asked[i];
    assert asked[n] == name[n] == '-' && IsDigit(asked[n + 1]);
    assert asked[n + 1] == name[n + 1];
  }

  /** For versions that start with a digit and a name in which no hyphen is followed by one, the look-up is right exactly when a
      file of the package is there or no package there has a name that goes on with a hyphen after it. */
  lemma FoundRightByNamesIff(ps: set<Package>, name: string, ext: string)
    requires NameShape(name) && forall p | p in ps :: VersionShape(p.version)
    ensures (Found(FilesOf(ps, ext), name, ext) <==> Has(ps, name))
            <==> Has(ps, name) || forall p | p in ps :: !StartsWith(p.name, name + "-")
  {
    FoundRightIff(ps, name, ext);
    hide Found, StartsWith;
    forall p | p in ps ensures Begins(p, name) <==> p.name == name || StartsWith(p.name, name + "-") {
      BeginsIff(p, name);
    }
  }
}
