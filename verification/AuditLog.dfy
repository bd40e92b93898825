/** services/audit.py: entries are appended to one file a day and read back newest first, or per package in order. A write may
    be cut short anywhere and leave an unfinished line, to which the next write of that day is then glued. */
module AuditLog {
  import opened IsoTime
  import opened Sequences
  import opened TextOrder

  /** A JSON object: its members, each with the text of its value. */
  type Entry = map<string, string>

  /** A line of a day file: an entry, nothing but white space, text that is not JSON, or bytes that are not text. */
  datatype Line = Logged(entry: Entry) | Blank | Broken | Undecodable

  /** `tail`: what follows the last line end. */
  datatype Day = Day(lines: seq<Line>, tail: Option<Line>)

  type Files = map<string, Day>

  const EmptyDay := Day([], None)

  function FileName(now: DateTime): string {
    DateText(now) + ".jsonl"
  }

  /** The lines of the file, an unfinished last one included. */
  function ReadLines(d: Day): seq<Line> {
    d.lines + if d.tail.Some? then [d.tail.value] else []
  }

  function EntriesOf(lines: seq<Line>): seq<Entry> {
    if lines == [] then []
    else
      var l := lines[|lines| - 1];
      EntriesOf(lines[..|lines| - 1]) + if l.Logged? then [l.entry] else []
  }

  /** `readlines` fails on a file that is not text, and all its lines are passed over. */
  function DayEntries(d: Day): seq<Entry> {
    if Undecodable in ReadLines(d) then [] else EntriesOf(ReadLines(d))
  }

  function ReadAll(files: Files, names: seq<string>): seq<Entry>
    requires forall n | n in names :: n in files
  {
    if names == [] then []
    else ReadAll(files, names[..|names| - 1]) + DayEntries(files[names[|names| - 1]])
  }

  /** All the entries that `get_recent_logs` can read, in the order of the sorted file names. */
  function Readable(files: Files): seq<Entry> {
    ReadAll(files, Sorted(files.Keys))
  }

  // ----- Writing -----

  function WithMember(e: Entry, name: string, value: string): Entry {
    if value == "" then e else e[name := value]
  }

  /** The optional members are left out when empty; `extra` comes last and overrides. */
  function MakeEntry(
    stamp: string, action: string, user: string, result: string, package: string, version: string, detail: string, extra: Entry)
    : Entry
  {
    var e: Entry := map["timestamp" := stamp, "action" := action, "user" := user, "result" := result];
    WithMember(WithMember(WithMember(e, "package", package), "version", version), "detail", detail) + extra
  }

  /** Where a write is cut short: `BeforeLineEnd` leaves the whole entry without its line end, and entries are written in UTF-8
      as they are, so that a cut can fall inside a character. */
  datatype Cut = Whole | BeforeFirstByte | BetweenCharacters | InsideCharacter | BeforeLineEnd

  /** One call of `log`: the clock when the file is chosen, the entry, and what becomes of the write. */
  datatype Event = Event(now: DateTime, entry: Entry, cut: Cut)

  /** The line that a write makes of what it follows. */
  function Glued(tail: Option<Line>, e: Event): Line {
    if tail == Some(Undecodable) || e.cut == InsideCharacter then Undecodable
    else if tail.Some? || e.cut == BetweenCharacters then Broken
    else Logged(e.entry)
  }

  function Written(d: Day, e: Event): Day {
    match e.cut
    case BeforeFirstByte => d
    case Whole => Day(d.lines + [Glued(d.tail, e)], None)
    case _ => d.(tail := Some(Glued(d.tail, e)))
  }

  function AfterEvent(files: Files, e: Event): Files {
    var name := FileName(e.now);
    files[name := Written(if name in files then files[name] else EmptyDay, e)]
  }

  function FilesAfter(events: seq<Event>, n: nat): Files
    requires n <= |events|
  {
    if n == 0 then map[] else AfterEvent(FilesAfter(events, n - 1), events[n - 1])
  }

  // ----- Reading -----

  function Reverse<T>(s: seq<T>): seq<T> {
    if s == [] then [] else [s[|s| - 1]] + Reverse(s[..|s| - 1])
  }

  /** `s[:n]`. */
  function Slice<T>(s: seq<T>, n: int): seq<T> {
    if n >= |s| then s else if n >= 0 then s[..n] else if |s| + n > 0 then s[..|s| + n] else []
  }

  /** The last n entries, newest first. */
  function Newest(s: seq<Entry>, n: int): seq<Entry> {
    if n <= 0 then [] else if n < |s| then Reverse(s[|s| - n..]) else Reverse(s)
  }

  function OfPackage(s: seq<Entry>, package: string): seq<Entry> {
    if s == [] then []
    else
      var e := s[|s| - 1];
      OfPackage(s[..|s| - 1], package) + if "package" in e && e["package"] == package then [e] else []
  }

  /** Iterating over a file that is not text gives the lines of the blocks decoded before the one that fails. */
  function LinesBeforeFailure(d: Day, decoded: nat): seq<Line> {
    var lines := ReadLines(d);
    if Undecodable !in lines then lines
    else lines[..if decoded < FirstIndex(lines, Undecodable) then decoded else FirstIndex(lines, Undecodable)]
  }

  /** All the entries that `get_package_history` reads; `decoded` says how far it gets in a file that is not text. */
  function HistoryAll(files: Files, names: seq<string>, decoded: string -> nat): seq<Entry>
    requires forall n | n in names :: n in files
  {
    if names == [] then []
    else
      var name := names[|names| - 1];
      HistoryAll(files, names[..|names| - 1], decoded) + EntriesOf(LinesBeforeFailure(files[name], decoded(name)))
  }

  class AuditDir {
    var files: Files

    constructor ()
      ensures files == FilesAfter([], 0)
    {
      files := map[];
    }

    method Log(
        stamp: string, action: string, user: string, result: string, package: string, version: string, detail: string, extra: Entry,
        now: DateTime, cut: Cut)
      modifies this
      ensures files == AfterEvent(old(files), Event(now, MakeEntry(stamp, action, user, result, package, version, detail, extra), cut))
    {
      hide MakeEntry, FileName;
      var entry := Compose(stamp, action, user, result, package, version, detail, extra);
      var name := FileName(now);
      var day := if name in files then files[name] else EmptyDay;
      if cut != BeforeFirstByte {
        var line := Glued(day.tail, Event(now, entry, cut));
        if cut == Whole {
          day := Day(day.lines + [line], None);
        } else {
          day := day.(tail := Some(line));
        }
      }
      files := files[name := day];
    }

    method Compose(
        stamp: string, action: string, user: string, result: string, package: string, version: string, detail: string, extra: Entry)
      returns (entry: Entry)
      ensures entry == MakeEntry(stamp, action, user, result, package, version, detail, extra)
    {
      entry := map["timestamp" := stamp, "action" := action, "user" := user, "result" := result];
      if package != "" {
        entry := entry["package" := package];
      }
      if version != "" {
        entry := entry["version" := version];
      }
      if detail != "" {
        entry := entry["detail" := detail];
      }
      entry := entry + extra;
    }

    method GetRecentLogs(limit: int) returns (r: seq<Entry>)
      ensures r == Newest(Readable(files), limit)
    {
      hide Sorted, EntriesOf, ReadAll, Reverse, Readable, ReadLines, DayEntries, Newest, Slice;
      var names := Sorted(files.Keys);
      var entries: seq<Entry> := [];
      ghost var read: seq<Entry> := [];
      var k := |names|;
      EmptyFacts(files);
      while k > 0
        invariant 0 <= k <= |names|
        invariant Readable(files) == ReadAll(files, names[..k]) + read && entries == Reverse(read)
        invariant |entries| < limit || entries == []
      {
        k := k - 1;
        var lines := ReadLines(files[names[k]]);
        ghost var earlier := ReadAll(files, names[..k]);
        ReadOneMore(files, names, k, read);
        if Undecodable in lines {
          continue;
        }
        var i := |lines|;
        while i > 0
          invariant 0 <= i <= |lines|
          invariant Readable(files) == earlier + EntriesOf(lines[..i]) + read && entries == Reverse(read)
          invariant |entries| < limit || entries == []
        {
          i := i - 1;
          LineBefore(earlier, lines, i, read);
          if lines[i].Logged? {
            ReverseOneMore(lines[i].entry, read);
            read := [lines[i].entry] + read;
            entries := entries + [lines[i].entry];
          }
          if |entries| >= limit {
            ReverseAt(read);
            r := Slice(entries, limit);
            NewestOfPrefix(earlier + EntriesOf(lines[..i]), read, limit);
            return;
          }
        }
        assert lines[..0] == [];
      }
      assert names[..0] == [];
      ReverseAt(read);
      r := Slice(entries, limit);
      NewestOfPrefix([], read, limit);
    }

    method GetPackageHistory(package: string, decoded: string -> nat) returns (r: seq<Entry>)
      ensures r == OfPackage(HistoryAll(files, Sorted(files.Keys), decoded), package)
    {
      hide Sorted, EntriesOf, HistoryAll, OfPackage;
      var names := Sorted(files.Keys);
      NothingYet(files, decoded);
      r := [];
      var k := 0;
      while k < |names|
        invariant 0 <= k <= |names| && r == OfPackage(HistoryAll(files, names[..k], decoded), package)
      {
        var lines := LinesBeforeFailure(files[names[k]], decoded(names[k]));
        ghost var earlier := HistoryAll(files, names[..k], decoded);
        var i := 0;
        assert earlier + EntriesOf(lines[..0]) == earlier;
        while i < |lines|
          invariant 0 <= i <= |lines| && r == OfPackage(earlier + EntriesOf(lines[..i]), package)
        {
          LineOneMore(lines, i);
          assert EntriesOf(lines[..i]) + [] == EntriesOf(lines[..i]);
          if lines[i].Logged? {
            var entry := lines[i].entry;
            PackageOneMore(earlier + EntriesOf(lines[..i]), entry, package);
            assert earlier + (EntriesOf(lines[..i]) + [entry]) == earlier + EntriesOf(lines[..i]) + [entry];
            if "package" in entry && entry["package"] == package {
              r := r + [entry];
            }
          }
          i := i + 1;
        }
        assert lines[..i] == lines;
        HistoryOneMore(files, names, decoded, k);
        k := k + 1;
      }
      assert names[..k] == names;
    }
  }

  lemma NothingYet(files: Files, decoded: string -> nat)
    ensures EntriesOf([]) == [] && HistoryAll(files, [], decoded) == []
    ensures forall p :: OfPackage([], p) == []
    ensures Sorted(files.Keys)[..0] == []
    ensures forall lines: seq<Line> :: lines[..0] == []
  {
  }

  lemma HistoryOneMore(files: Files, names: seq<string>, decoded: string -> nat, k: nat)
    requires k < |names| && forall n | n in names :: n in files
    ensures HistoryAll(files, names[..k + 1], decoded)
            == HistoryAll(files, names[..k], decoded) + EntriesOf(LinesBeforeFailure(files[names[k]], decoded(names[k])))
  {
    assert names[..k + 1][..k] == names[..k];
  }

  lemma EmptyFacts(files: Files)
    ensures EntriesOf([]) == [] && ReadAll(files, []) == [] && Reverse<Entry>([]) == []
    ensures var names := Sorted(files.Keys); names[..0] == [] && Readable(files) == ReadAll(files, names[..|names|]) + []
    ensures forall lines: seq<Line> :: lines[..0] == [] && lines[..|lines|] == lines
  {
    var names := Sorted(files.Keys);
    assert names[..|names|] == names;
  }

  lemma ReadOneMore(files: Files, names: seq<string>, k: nat, read: seq<Entry>)
    requires k < |names| && forall n | n in names :: n in files
    ensures var lines := ReadLines(files[names[k]]);
            ReadAll(files, names[..k + 1]) + read
            == ReadAll(files, names[..k]) + (if Undecodable in lines then [] else EntriesOf(lines)) + read
    ensures ReadAll(files, names[..k]) + [] + read == ReadAll(files, names[..k]) + read
  {
    hide Sorted, ReadLines, EntriesOf;
    assert names[..k + 1][..k] == names[..k];
    assert ReadAll(files, names[..k]) + [] == ReadAll(files, names[..k]);
  }

  lemma LineBefore(earlier: seq<Entry>, lines: seq<Line>, i: nat, read: seq<Entry>)
    requires i < |lines|
    ensures earlier + EntriesOf(lines[..i + 1]) + read
            == earlier + EntriesOf(lines[..i]) + if lines[i].Logged? then [lines[i].entry] + read else read
  {
    hide EntriesOf;
    LineOneMore(lines, i);
    assert EntriesOf(lines[..i]) + [] == EntriesOf(lines[..i]);
  }

  lemma LineOneMore(lines: seq<Line>, i: nat)
    requires i < |lines|
    ensures EntriesOf(lines[..i + 1]) == EntriesOf(lines[..i]) + if lines[i].Logged? then [lines[i].entry] else []
  {
    assert lines[..i + 1][..i] == lines[..i];
  }

  lemma PackageOneMore(s: seq<Entry>, e: Entry, package: string)
    ensures OfPackage(s + [e], package) == OfPackage(s, package) + if "package" in e && e["package"] == package then [e] else []
  {
    assert (s + [e])[..|s|] == s;
  }

  lemma {:induction false} ReverseOneMore<T>(x: T, s: seq<T>)
    ensures Reverse([x] + s) == Reverse(s) + [x]
  {
    hide Reverse;
    ReverseUnfolds([x] + s);
    ReverseUnfolds(s);
    if s == [] {
      assert ([x] + s)[..0] == [] && ([x] + s)[0] == x;
    } else {
      var front, last := s[..|s| - 1], s[|s| - 1];
      ReverseOneMore(x, front);
      assert ([x] + s)[..|s|] == [x] + front && ([x] + s)[|s|] == last;
      assert [last] + (Reverse(front) + [x]) == [last] + Reverse(front) + [x];
    }
  }

  lemma ReverseUnfolds<T>(s: seq<T>)
    ensures Reverse(s) == if s == [] then [] else [s[|s| - 1]] + Reverse(s[..|s| - 1])
  {
  }

  lemma {:induction false} ReverseAt<T>(s: seq<T>)
    ensures |Reverse(s)| == |s| && forall i | 0 <= i < |s| :: Reverse(s)[i] == s[|s| - 1 - i]
  {
    if s != [] {
      var n := |s| - 1;
      var r := Reverse(s[..n]);
      ReverseAt(s[..n]);
      forall i | 0 <= i <= n ensures ([s[n]] + r)[i] == s[n - i] {
        if i > 0 { assert r[i - 1] == s[..n][n - i]; }
      }
    }
  }

  /** Reading can stop as soon as the limit is reached: what has not been read yet is older. */
  lemma NewestOfPrefix(unread: seq<Entry>, read: seq<Entry>, limit: int)
    requires |read| >= limit || unread == []
    requires |read| <= limit || |read| <= 1
    ensures Slice(Reverse(read), limit) == Newest(unread + read, limit)
  {
    ReverseAt(read);
    var all := unread + read;
    if 0 < limit < |all| {
      ReverseAt(all[|all| - limit..]);
      assert |read| == limit;
      assert all[|all| - limit..] == read;
    } else if limit > 0 {
      assert unread == [] || |read| >= limit;
      assert all == read || unread == [];
      assert all == read;
    }
  }

  // ----- What a run of writes leaves to be read -----

  ghost predicate ClockRuns(events: seq<Event>) {
    && (forall e | e in events :: Valid(e.now))
    && forall i, j | 0 <= i < j < |events| :: Instant(events[i].now) <= Instant(events[j].now)
  }

  function NameOf(e: Event): string {
    FileName(e.now)
  }

  /** The last of the first n events that left something in the file, or -1. */
  function LastWriter(events: seq<Event>, n: nat, name: string): (w: int)
    requires n <= |events|
    ensures -1 <= w < n
    ensures w >= 0 ==> NameOf(events[w]) == name && events[w].cut != BeforeFirstByte
    ensures forall i | w < i < n && NameOf(events[i]) == name :: events[i].cut == BeforeFirstByte
  {
    if n == 0 then -1
    else if NameOf(events[n - 1]) == name && events[n - 1].cut != BeforeFirstByte then n - 1
    else LastWriter(events, n - 1, name)
  }

  /** The first n events leave the file with an unfinished line. */
  predicate OpenAt(events: seq<Event>, n: nat, name: string)
    requires n <= |events|
  {
    var w := LastWriter(events, n, name);
    w >= 0 && events[w].cut != Whole
  }

  /** One of the first n events was cut inside a character in the file. */
  predicate Garbled(events: seq<Event>, n: nat, name: string)
    requires n <= |events|
  {
    exists i :: 0 <= i < n && NameOf(events[i]) == name && events[i].cut == InsideCharacter
  }

  /** Entry i ends in a line of its own: it is not glued to an unfinished line, nor, for want of its line end, any later write to
      it. And nothing in its file, before or after it, was cut inside a character. */
  predicate KeptAt(events: seq<Event>, i: nat)
    requires i < |events|
  {
    var e, name := events[i], NameOf(events[i]);
    && !Garbled(events, |events|, name)
    && !OpenAt(events, i, name)
    && (e.cut == Whole || (e.cut == BeforeLineEnd && LastWriter(events, |events|, name) == i))
  }

  function KeptUpTo(events: seq<Event>, n: nat): seq<Entry>
    requires n <= |events|
  {
    if n == 0 then [] else KeptUpTo(events, n - 1) + if KeptAt(events, n - 1) then [events[n - 1].entry] else []
  }

  function Kept(events: seq<Event>): seq<Entry> {
    KeptUpTo(events, |events|)
  }

  lemma FilesAreInOrder(a: DateTime, b: DateTime)
    requires Valid(a) && Valid(b) && Instant(a) <= Instant(b)
    ensures FileName(a) == FileName(b) || Less(FileName(a), FileName(b))
  {
    FieldsAreTime(b, a);
    DateTextOrder(b, a, ".jsonl");
    Trichotomy(FileName(a), FileName(b));
  }

  // ----- One file -----

  function DayAt(events: seq<Event>, n: nat, name: string): Day
    requires n <= |events|
  {
    if n == 0 then EmptyDay
    else
      var d := DayAt(events, n - 1, name);
      if NameOf(events[n - 1]) == name then Written(d, events[n - 1]) else d
  }

  /** The entries of the first n events that went into a file each on a line of its own, line end included. */
  function WholeIn(events: seq<Event>, n: nat, name: string): seq<Entry>
    requires n <= |events|
  {
    if n == 0 then []
    else
      var e := events[n - 1];
      WholeIn(events, n - 1, name)
      + if NameOf(e) == name && e.cut == Whole && !OpenAt(events, n - 1, name) then [e.entry] else []
  }

  function KeptIn(events: seq<Event>, n: nat, name: string): seq<Entry>
    requires n <= |events|
  {
    if n == 0 then []
    else
      KeptIn(events, n - 1, name)
      + if NameOf(events[n - 1]) == name && KeptAt(events, n - 1) then [events[n - 1].entry] else []
  }

  lemma {:induction false} FilesAreDays(events: seq<Event>, n: nat, name: string)
    requires n <= |events|
    ensures name in FilesAfter(events, n) <==> exists i :: 0 <= i < n && NameOf(events[i]) == name
    ensures DayAt(events, n, name) == if name in FilesAfter(events, n) then FilesAfter(events, n)[name] else EmptyDay
  {
    hide FileName, Written;
    if n > 0 {
      FilesAreDays(events, n - 1, name);
    }
  }

  /** The unfinished line of a file: there exactly when the last write in it was cut, and an entry exactly when that write was cut
      before its line end and not glued to an unfinished line itself. */
  lemma {:induction false} TailMeaning(events: seq<Event>, n: nat, name: string)
    requires n <= |events|
    ensures var t, w := DayAt(events, n, name).tail, LastWriter(events, n, name);
            && (t.Some? <==> OpenAt(events, n, name))
            && (t.Some? ==> (t.value.Logged? <==> events[w].cut == BeforeLineEnd && !OpenAt(events, w, name)))
            && (t.Some? && t.value.Logged? ==> t.value.entry == events[w].entry)
            && (t.Some? ==> !t.value.Blank?)
  {
    hide FileName;
    if n > 0 {
      TailMeaning(events, n - 1, name);
    }
  }

  lemma EntriesMore(lines: seq<Line>, l: Line)
    ensures EntriesOf(lines + [l]) == EntriesOf(lines) + if l.Logged? then [l.entry] else []
  {
    assert (lines + [l])[..|lines|] == lines;
  }

  /** The finished lines of a file hold the entries written whole. */
  lemma {:induction false} LinesMeaning(events: seq<Event>, n: nat, name: string)
    requires n <= |events|
    ensures EntriesOf(DayAt(events, n, name).lines) == WholeIn(events, n, name)
  {
    hide EntriesOf, FileName, OpenAt;
    NoEntries();
    if n > 0 {
      LinesMeaning(events, n - 1, name);
      TailMeaning(events, n - 1, name);
      var d, e := DayAt(events, n - 1, name), events[n - 1];
      EntriesMore(d.lines, Glued(d.tail, e));
      assert WholeIn(events, n - 1, name) + [] == WholeIn(events, n - 1, name);
    }
  }

  lemma NoEntries()
    ensures EntriesOf([]) == []
  {
  }

  /** A file is not text exactly when a write in it was cut inside a character, and it stays so. */
  lemma {:induction false} GarbledMeaning(events: seq<Event>, n: nat, name: string)
    requires n <= |events|
    ensures Undecodable in ReadLines(DayAt(events, n, name)) <==> Garbled(events, n, name)
  {
    hide FileName;
    if n > 0 {
      GarbledMeaning(events, n - 1, name);
      WrittenGarbled(DayAt(events, n - 1, name), events[n - 1]);
      hide ReadLines, Written;
    }
  }

  lemma WrittenGarbled(d: Day, e: Event)
    ensures Undecodable in ReadLines(Written(d, e)) <==> Undecodable in ReadLines(d) || e.cut == InsideCharacter
  {
  }

  /** The entry of an unfinished last line. */
  function TailIn(events: seq<Event>, n: nat, name: string): seq<Entry>
    requires n <= |events|
  {
    var w := LastWriter(events, |events|, name);
    if 0 <= w < n && events[w].cut == BeforeLineEnd && !OpenAt(events, w, name) then [events[w].entry] else []
  }

  /** One more event adds the same to both sides: a whole entry, the entry of the unfinished last line, or nothing. */
  lemma KeptInMore(events: seq<Event>, n: nat, name: string)
    requires 0 < n <= |events| && !Garbled(events, |events|, name)
    ensures var e := events[n - 1];
            var more := if NameOf(e) == name && KeptAt(events, n - 1) then [e.entry] else [];
            var whole := if NameOf(e) == name && e.cut == Whole && !OpenAt(events, n - 1, name) then [e.entry] else [];
            TailIn(events, n - 1, name) + more == whole + TailIn(events, n, name)
  {
    hide FileName, NameOf, OpenAt, Garbled, LastWriter;
    var e, w := events[n - 1], LastWriter(events, |events|, name);
    assert NameOf(e) == name && e.cut == Whole ==> w >= n - 1;
    if NameOf(e) == name && (e.cut == Whole || w == n - 1) {
      assert TailIn(events, n - 1, name) == [];
    } else {
      assert TailIn(events, n - 1, name) == TailIn(events, n, name);
    }
  }

  lemma {:induction false} KeptInMeaning(events: seq<Event>, n: nat, name: string)
    requires n <= |events| && !Garbled(events, |events|, name)
    ensures KeptIn(events, n, name) == WholeIn(events, n, name) + TailIn(events, n, name)
  {
    hide *;
    if n == 0 {
      NothingIn(events, name);
    } else {
      KeptInMeaning(events, n - 1, name);
      KeptInMore(events, n, name);
      WholeInStep(events, n - 1, name);
      KeptInStep(events, n - 1, name);
      var e := events[n - 1];
      var more := if NameOf(e) == name && KeptAt(events, n - 1) then [e.entry] else [];
      var whole := if NameOf(e) == name && e.cut == Whole && !OpenAt(events, n - 1, name) then [e.entry] else [];
      FourParts(WholeIn(events, n - 1, name), TailIn(events, n - 1, name), more, whole, TailIn(events, n, name));
    }
  }

  lemma NothingIn(events: seq<Event>, name: string)
    ensures KeptIn(events, 0, name) == WholeIn(events, 0, name) + TailIn(events, 0, name)
  {
  }

  lemma WholeInStep(events: seq<Event>, n: nat, name: string)
    requires n < |events|
    ensures WholeIn(events, n + 1, name)
            == WholeIn(events, n, name)
               + if NameOf(events[n]) == name && events[n].cut == Whole && !OpenAt(events, n, name) then [events[n].entry] else []
  {
    hide OpenAt, NameOf;
  }

  lemma FourParts(a: seq<Entry>, b: seq<Entry>, c: seq<Entry>, d: seq<Entry>, e: seq<Entry>)
    requires b + c == d + e
    ensures a + b + c == a + d + e
  {
    assert a + b + c == a + (b + c) && a + d + e == a + (d + e);
  }

  /** What can be read of a file is what is kept of it. */
  lemma DayIsKept(events: seq<Event>, name: string)
    ensures DayEntries(DayAt(events, |events|, name)) == KeptIn(events, |events|, name)
  {
    var n, d := |events|, DayAt(events, |events|, name);
    GarbledMeaning(events, n, name);
    if Garbled(events, n, name) {
      NothingKept(events, n, name);
    } else {
      LinesMeaning(events, n, name);
      TailMeaning(events, n, name);
      KeptInMeaning(events, n, name);
      hide EntriesOf, FileName, Garbled;
      if d.tail.Some? { EntriesMore(d.lines, d.tail.value); } else { assert ReadLines(d) == d.lines; }
    }
  }

  lemma {:induction false} NothingKept(events: seq<Event>, n: nat, name: string)
    requires n <= |events| && Garbled(events, |events|, name)
    ensures KeptIn(events, n, name) == []
  {
    hide FileName, Garbled;
    if n > 0 {
      NothingKept(events, n - 1, name);
    }
  }

  // ----- All files -----

  function KeptOver(events: seq<Event>, n: nat, names: seq<string>): seq<Entry>
    requires n <= |events|
  {
    if names == [] then [] else KeptOver(events, n, names[..|names| - 1]) + KeptIn(events, n, names[|names| - 1])
  }

  /** The event at n, in the last file so far, adds to the end. */
  lemma {:induction false} KeptOverStep(events: seq<Event>, n: nat, names: seq<string>)
    requires ClockRuns(events) && n < |events| && StrictlySorted(names)
    ensures KeptOver(events, n + 1, names)
            == KeptOver(events, n, names) + if NameOf(events[n]) in names && KeptAt(events, n) then [events[n].entry] else []
  {
    hide KeptAt, KeptIn, ClockRuns, Less, NameOf;
    if names != [] {
      var front, last, name := names[..|names| - 1], names[|names| - 1], NameOf(events[n]);
      KeptOverStep(events, n, front);
      KeptInStep(events, n, last);
      assert KeptOver(events, n, front) + (KeptIn(events, n, last) + []) == KeptOver(events, n, front) + KeptIn(events, n, last);
      if name in front {
        var i :| 0 <= i < |front| && front[i] == name;
        assert Less(names[i], last);
        Trichotomy(name, last);
        LaterFileEmpty(events, n + 1, last);
        assert name in names;
        assert KeptOver(events, n, front) + [] == KeptOver(events, n, front);
      } else {
        assert name in names <==> name == last;
      }
    }
  }

  lemma KeptInStep(events: seq<Event>, n: nat, name: string)
    requires n < |events|
    ensures KeptIn(events, n + 1, name)
            == KeptIn(events, n, name) + if NameOf(events[n]) == name && KeptAt(events, n) then [events[n].entry] else []
  {
  }

  lemma {:induction false} LaterFileEmpty(events: seq<Event>, n: nat, name: string)
    requires ClockRuns(events) && 0 < n <= |events| && Less(NameOf(events[n - 1]), name)
    ensures KeptIn(events, n, name) == []
  {
    hide KeptAt, FileName, Less;
    Trichotomy(NameOf(events[n - 1]), name);
    if n > 1 {
      assert events[n - 2] in events && events[n - 1] in events;
      FilesAreInOrder(events[n - 2].now, events[n - 1].now);
      hide ClockRuns, Valid, Instant;
      if NameOf(events[n - 2]) != NameOf(events[n - 1]) { Transitive(NameOf(events[n - 2]), NameOf(events[n - 1]), name); }
      LaterFileEmpty(events, n - 1, name);
    }
  }

  lemma {:induction false} KeptTogether(events: seq<Event>, n: nat, names: seq<string>)
    requires ClockRuns(events) && n <= |events| && StrictlySorted(names)
    requires forall i | 0 <= i < n :: NameOf(events[i]) in names
    ensures KeptOver(events, n, names) == KeptUpTo(events, n)
  {
    hide KeptAt, KeptOver, FileName, NameOf, ClockRuns, StrictlySorted;
    if n == 0 {
      KeptBeforeAnything(events, names);
    } else {
      KeptTogether(events, n - 1, names);
      KeptOverStep(events, n - 1, names);
    }
  }

  lemma {:induction false} KeptBeforeAnything(events: seq<Event>, names: seq<string>)
    ensures KeptOver(events, 0, names) == []
  {
    if names != [] {
      KeptBeforeAnything(events, names[..|names| - 1]);
    }
  }

  lemma {:induction false} ReadIsKept(events: seq<Event>, names: seq<string>)
    requires forall name | name in names :: name in FilesAfter(events, |events|)
    ensures ReadAll(FilesAfter(events, |events|), names) == KeptOver(events, |events|, names)
  {
    hide DayEntries, KeptIn, FilesAfter, DayAt;
    if names != [] {
      var name := names[|names| - 1];
      assert name in names;
      ReadIsKept(events, names[..|names| - 1]);
      FilesAreDays(events, |events|, name);
      DayIsKept(events, name);
    }
  }

  /** After any sequence of writes, cut short anywhere, with a clock that does not go back, over any number of days, what can be
      read is exactly the entries kept, in logging order. */
  lemma ReadableIsKept(events: seq<Event>)
    requires ClockRuns(events)
    ensures Readable(FilesAfter(events, |events|)) == Kept(events)
  {
    hide ReadAll, KeptOver, KeptUpTo, FilesAfter, ClockRuns, Sorted;
    var files := FilesAfter(events, |events|);
    var names := Sorted(files.Keys);
    forall i | 0 <= i < |events| ensures NameOf(events[i]) in names {
      FilesAreDays(events, |events|, NameOf(events[i]));
      assert NameOf(events[i]) in files.Keys;
    }
    ReadIsKept(events, names);
    KeptTogether(events, |events|, names);
  }

  /** When no write is cut short nothing is lost. */
  lemma NothingLost(events: seq<Event>)
    requires forall e | e in events :: e.cut == Whole
    ensures |Kept(events)| == |events| && forall i | 0 <= i < |events| :: Kept(events)[i] == events[i].entry
  {
    forall i | 0 <= i < |events| ensures KeptAt(events, i) {
      assert events[i] in events;
      assert !Garbled(events, |events|, NameOf(events[i])) by { assert forall j | 0 <= j < |events| :: events[j] in events; }
      assert LastWriter(events, i, NameOf(events[i])) >= 0 ==> events[LastWriter(events, i, NameOf(events[i]))] in events;
    }
    AllKept(events, |events|);
  }

  lemma {:induction false} AllKept(events: seq<Event>, n: nat)
    requires n <= |events| && forall i | 0 <= i < |events| :: KeptAt(events, i)
    ensures |KeptUpTo(events, n)| == n && forall i | 0 <= i < n :: KeptUpTo(events, n)[i] == events[i].entry
  {
    hide KeptAt;
    if n > 0 {
      AllKept(events, n - 1);
    }
  }

  // ----- The history of a package -----

  /** Of a file that is not text the history reads no further than the first write cut inside a character, at j. */
  lemma HistoryOfGarbledDay(events: seq<Event>, name: string, j: nat, decoded: nat)
    requires j < |events| && NameOf(events[j]) == name && events[j].cut == InsideCharacter && !Garbled(events, j, name)
    ensures EntriesOf(LinesBeforeFailure(DayAt(events, |events|, name), decoded)) <= WholeIn(events, j, name)
    ensures decoded >= |DayAt(events, j, name).lines| ==>
              EntriesOf(LinesBeforeFailure(DayAt(events, |events|, name), decoded)) == WholeIn(events, j, name)
  {
    hide EntriesOf, FileName, WholeIn, DayAt, Garbled;
    var lines, all := DayAt(events, j, name).lines, ReadLines(DayAt(events, |events|, name));
    GarbledMeaning(events, j, name);
    GarbledForGood(events, |events|, name, j);
    LinesMeaning(events, j, name);
    assert Undecodable in all;
    assert FirstIndex(all, Undecodable) == |lines| by { assert forall i | 0 <= i < |lines| :: all[i] == lines[i] && lines[i] in lines; }
    assert all[..|lines|] == lines;
    var m := if decoded < |lines| then decoded else |lines|;
    EntriesPrefix(lines, m);
    assert all[..m] == lines[..m];
    assert lines[..|lines|] == lines;
  }

  lemma {:induction false} GarbledForGood(events: seq<Event>, n: nat, name: string, j: nat)
    requires j < n <= |events| && NameOf(events[j]) == name && events[j].cut == InsideCharacter
    ensures var lines, all := DayAt(events, j, name).lines, ReadLines(DayAt(events, n, name));
            |lines| < |all| && lines <= all && all[|lines|] == Undecodable
  {
    hide FileName;
    if n > j + 1 {
      GarbledForGood(events, n - 1, name, j);
    }
  }

  lemma {:induction false} EntriesPrefix(lines: seq<Line>, m: nat)
    requires m <= |lines|
    ensures EntriesOf(lines[..m]) <= EntriesOf(lines)
  {
    if m == |lines| {
      assert lines[..m] == lines;
    } else {
      var front := lines[..|lines| - 1];
      EntriesPrefix(front, m);
      assert front[..m] == lines[..m];
    }
  }

  /** Where every file is text the history reads all that the log does. */
  lemma {:induction false} HistoryReadsAll(files: Files, names: seq<string>, decoded: string -> nat)
    requires forall n | n in names :: n in files && Undecodable !in ReadLines(files[n])
    ensures HistoryAll(files, names, decoded) == ReadAll(files, names)
  {
    hide EntriesOf, ReadLines;
    if names != [] {
      HistoryReadsAll(files, names[..|names| - 1], decoded);
    }
  }

  lemma HistoryIsKept(events: seq<Event>, decoded: string -> nat)
    requires ClockRuns(events) && forall e | e in events :: e.cut != InsideCharacter
    ensures var files := FilesAfter(events, |events|); HistoryAll(files, Sorted(files.Keys), decoded) == Kept(events)
  {
    var files := FilesAfter(events, |events|);
    hide HistoryAll, ReadAll, Kept, FilesAfter, ReadLines, DayAt, Sorted;
    forall name | name in files ensures Undecodable !in ReadLines(files[name]) {
      FilesAreDays(events, |events|, name);
      GarbledMeaning(events, |events|, name);
      assert forall i | 0 <= i < |events| :: events[i] in events;
    }
    HistoryReadsAll(files, Sorted(files.Keys), decoded);
    ReadableIsKept(events);
  }

  /** The two readers over a whole run: the last entries kept, newest first, and, where no write was cut inside a character, those
      kept of a package in logging order. */
  method ReadersOverRuns(dir: AuditDir, events: seq<Event>, limit: int, package: string, decoded: string -> nat)
    returns (recent: seq<Entry>, history: seq<Entry>)
    requires ClockRuns(events) && dir.files == FilesAfter(events, |events|)
    ensures recent == Newest(Kept(events), limit)
    ensures (forall e | e in events :: e.cut != InsideCharacter) ==> history == OfPackage(Kept(events), package)
  {
    hide Kept, FilesAfter, Readable, HistoryAll, ClockRuns;
    ReadableIsKept(events);
    recent := dir.GetRecentLogs(limit);
    history := dir.GetPackageHistory(package, decoded);
    if forall e | e in events :: e.cut != InsideCharacter {
      HistoryIsKept(events, decoded);
    }
  }

  // ----- One entry, from its writing to its package's history -----

  /** What an entry says: the four members always, the optional ones when they are not empty, and whatever the call adds, which
      replaces members of the same name. */
  lemma MembersLogged(
    stamp: string, action: string, user: string, result: string, package: string, version: string, detail: string, extra: Entry)
    ensures var e := MakeEntry(stamp, action, user, result, package, version, detail, extra);
            && (forall k | k in extra :: k in e && e[k] == extra[k])
            && (forall k | k in e && k !in extra :: k in ["timestamp", "action", "user", "result", "package", "version", "detail"])
            && ("timestamp" !in extra ==> "timestamp" in e && e["timestamp"] == stamp)
            && ("action" !in extra ==> "action" in e && e["action"] == action)
            && ("user" !in extra ==> "user" in e && e["user"] == user)
            && ("result" !in extra ==> "result" in e && e["result"] == result)
            && ("package" !in extra ==> ("package" in e <==> package != "") && ("package" in e ==> e["package"] == package))
            && ("version" !in extra ==> ("version" in e <==> version != "") && ("version" in e ==> e["version"] == version))
            && ("detail" !in extra ==> ("detail" in e <==> detail != "") && ("detail" in e ==> e["detail"] == detail))
  {
  }

  lemma {:induction false} OfPackageIff(s: seq<Entry>, package: string, e: Entry)
    ensures e in OfPackage(s, package) <==> e in s && "package" in e && e["package"] == package
  {
    if s != [] {
      OfPackageIff(s[..|s| - 1], package, e);
      assert s == s[..|s| - 1] + [s[|s| - 1]];
    }
  }

  lemma {:induction false} EntriesIff(lines: seq<Line>, e: Entry)
    ensures e in EntriesOf(lines) <==> Logged(e) in lines
  {
    if lines != [] {
      EntriesIff(lines[..|lines| - 1], e);
      assert lines == lines[..|lines| - 1] + [lines[|lines| - 1]];
    }
  }

  lemma {:induction false} HistoryHas(files: Files, names: seq<string>, decoded: string -> nat, name: string, e: Entry)
    requires (forall n | n in names :: n in files) && name in names
    requires e in EntriesOf(LinesBeforeFailure(files[name], decoded(name)))
    ensures e in HistoryAll(files, names, decoded)
  {
    hide EntriesOf, LinesBeforeFailure;
    if names[|names| - 1] != name {
      assert names == names[..|names| - 1] + [names[|names| - 1]];
      HistoryHas(files, names[..|names| - 1], decoded, name, e);
    }
  }

  /** A call of `log` for a package, written whole after whole lines, is in that package's history with what it was told. */
  method LoggedIsInHistory(
      dir: AuditDir, stamp: string, action: string, user: string, result: string, package: string, version: string, detail: string,
      extra: Entry, now: DateTime, decoded: string -> nat)
    returns (history: seq<Entry>)
    requires package != "" && forall k | k in ["action", "user", "result", "package"] :: k !in extra
    requires var name := FileName(now);
             name in dir.files ==> dir.files[name].tail.None? && Undecodable !in dir.files[name].lines
    modifies dir
    ensures exists e :: e in history && TellsOf(e, action, user, result, package)
  {
    hide *;
    ghost var before, event := dir.files, Event(now, MakeEntry(stamp, action, user, result, package, version, detail, extra), Whole);
    dir.Log(stamp, action, user, result, package, version, detail, extra, now, Whole);
    history := dir.GetPackageHistory(package, decoded);
    ToldEntry(stamp, action, user, result, package, version, detail, extra);
    WholeIsInHistory(before, event, package, decoded);
  }

  lemma ToldEntry(
    stamp: string, action: string, user: string, result: string, package: string, version: string, detail: string, extra: Entry)
    requires package != "" && forall k | k in ["action", "user", "result", "package"] :: k !in extra
    ensures TellsOf(MakeEntry(stamp, action, user, result, package, version, detail, extra), action, user, result, package)
    ensures OfPackage([MakeEntry(stamp, action, user, result, package, version, detail, extra)], package) != []
  {
    hide MakeEntry, OfPackage;
    MembersLogged(stamp, action, user, result, package, version, detail, extra);
    var e := MakeEntry(stamp, action, user, result, package, version, detail, extra);
    assert "action" in ["action", "user", "result", "package"] && "user" in ["action", "user", "result", "package"];
    assert "result" in ["action", "user", "result", "package"] && "package" in ["action", "user", "result", "package"];
    OfPackageIff([e], package, e);
  }

  lemma WholeIsInHistory(files: Files, event: Event, package: string, decoded: string -> nat)
    requires event.cut == Whole && OfPackage([event.entry], package) != []
    requires var name := FileName(event.now); name in files ==> files[name].tail.None? && Undecodable !in files[name].lines
    ensures var after := AfterEvent(files, event);
            event.entry in OfPackage(HistoryAll(after, Sorted(after.Keys), decoded), package)
  {
    hide Sorted, EntriesOf, HistoryAll, FileName;
    var after, name, e := AfterEvent(files, event), FileName(event.now), event.entry;
    var day := after[name];
    assert day.lines[|day.lines| - 1] == Logged(e) && Undecodable !in day.lines && ReadLines(day) == day.lines;
    EntriesIff(day.lines, e);
    HistoryHas(after, Sorted(after.Keys), decoded, name, e);
    assert [e][..0] == [];
    hide OfPackage;
    OfPackageIff([e], package, OfPackage([e], package)[0]);
    OfPackageIff(HistoryAll(after, Sorted(after.Keys), decoded), package, e);
  }

  predicate TellsOf(e: Entry, action: string, user: string, result: string, package: string) {
    && "action" in e && e["action"] == action && "user" in e && e["user"] == user
    && "result" in e && e["result"] == result && "package" in e && e["package"] == package
  }

  /** Entry k of the answer is the entry written k-th last. */
  lemma NewestAt(s: seq<Entry>, n: int, k: nat)
    requires k < n && k < |s|
    ensures |Newest(s, n)| == (if n < |s| then n else |s|) && Newest(s, n)[k] == s[|s| - 1 - k]
  {
    hide Reverse;
    if n < |s| {
      var last := s[|s| - n..];
      ReverseAt(last);
      assert Reverse(last)[k] == last[n - 1 - k] == s[|s| - 1 - k];
    } else {
      ReverseAt(s);
    }
  }
}
