/** Timestamped backups: why sorting their names sorts them by time, and what rotation keeps. */
module Backups {
  import opened Sorting
  import Decimal

  // ---------------------------------------------------------------- names and times

  /** A UTC time as the name shows it. */
  datatype Stamp = Stamp(year: nat, month: nat, day: nat, hour: nat, minute: nat, second: nat, nanos: nat)

  predicate Shown(t: Stamp) {
    t.year < 10000 && t.month < 100 && t.day < 100 && t.hour < 100 && t.minute < 100 && t.second < 100 && t.nanos < 1_000_000_000
  }

  predicate Before(t: Stamp, u: Stamp) {
    if t.year != u.year then t.year < u.year
    else if t.month != u.month then t.month < u.month
    else if t.day != u.day then t.day < u.day
    else if t.hour != u.hour then t.hour < u.hour
    else if t.minute != u.minute then t.minute < u.minute
    else if t.second != u.second then t.second < u.second
    else t.nanos < u.nanos
  }

  /** `width` decimal digits, padded with zeros. */
  function Pad(n: nat, width: nat): (s: string)
    ensures |s| == width && Decimal.AllDigits(s)
  {
    if width == 0 then "" else Pad(n / 10, width - 1) + [Decimal.DigitChar(n % 10)]
  }

  /** The layout 20060102-150405.000000000. */
  function Timestamp(t: Stamp): string {
    Pad(t.year, 4) + (Pad(t.month, 2) + (Pad(t.day, 2) + ("-" + (Pad(t.hour, 2) + (Pad(t.minute, 2)
    + (Pad(t.second, 2) + ("." + Pad(t.nanos, 9))))))))
  }

  const PREFIX := "backup-"
  const SUFFIX := ".db"

  function NameOf(t: Stamp): string {
    PREFIX + (Timestamp(t) + SUFFIX)
  }

  const NAME_ORDER: (string, string) -> bool := (a: string, b: string) => Less(a, b)

  lemma NamesAreOrdered()
    ensures StrictOrder(NAME_ORDER)
  {
    forall a: string ensures !NAME_ORDER(a, a) { LessIrreflexive(a); }
    forall a: string, b: string, c: string | NAME_ORDER(a, b) && NAME_ORDER(b, c) ensures NAME_ORDER(a, c) { LessTransitive(a, b, c); }
    forall a: string, b: string | a != b ensures NAME_ORDER(a, b) || NAME_ORDER(b, a) { LessTotal(a, b); }
  }

  /** Fields of equal width are compared one after the other. */
  lemma {:induction false} LessByFields(a: string, b: string, x: string, y: string)
    requires |a| == |b|
    ensures Less(a + x, b + y) <==> Less(a, b) || (a == b && Less(x, y))
  {
    if |a| == 0 {
      assert a + x == x && b + y == y;
    } else {
      assert (a + x)[1..] == a[1..] + x && (b + y)[1..] == b[1..] + y;
      LessByFields(a[1..], b[1..], x, y);
      assert a == [a[0]] + a[1..] && b == [b[0]] + b[1..];
    }
  }

  function Power10(width: nat): nat {
    if width == 0 then 1 else 10 * Power10(width - 1)
  }

  /** Zero-padded numbers sort like the numbers. */
  lemma {:induction false} PadOrder(n: nat, m: nat, width: nat)
    requires n < Power10(width) && m < Power10(width)
    ensures Less(Pad(n, width), Pad(m, width)) <==> n < m
    ensures Pad(n, width) == Pad(m, width) <==> n == m
  {
    if width > 0 {
      PadOrder(n / 10, m / 10, width - 1);
      var x, y := [Decimal.DigitChar(n % 10)], [Decimal.DigitChar(m % 10)];
      LessByFields(Pad(n / 10, width - 1), Pad(m / 10, width - 1), x, y);
      assert x[1..] == "" && y[1..] == "";
      assert Less(x, y) <==> n % 10 < m % 10;
      if Pad(n, width) == Pad(m, width) {
        assert Pad(n, width)[..width - 1] == Pad(n / 10, width - 1) && Pad(m, width)[..width - 1] == Pad(m / 10, width - 1);
        assert Pad(n, width)[width - 1] == x[0] && Pad(m, width)[width - 1] == y[0];
      }
    }
  }

  /** One padded field in front of the rest of two names. */
  lemma FieldOrder(n: nat, m: nat, width: nat, x: string, y: string)
    requires n < Power10(width) && m < Power10(width)
    ensures Less(Pad(n, width) + x, Pad(m, width) + y) <==> n < m || (n == m && Less(x, y))
  {
    LessByFields(Pad(n, width), Pad(m, width), x, y);
    PadOrder(n, m, width);
  }

  lemma SameHead(head: string, x: string, y: string)
    ensures Less(head + x, head + y) <==> Less(x, y)
  {
    LessByFields(head, head, x, y);
    LessIrreflexive(head);
  }

  function ClockPart(t: Stamp): string {
    Pad(t.hour, 2) + (Pad(t.minute, 2) + (Pad(t.second, 2) + ("." + Pad(t.nanos, 9))))
  }

  lemma Widths()
    ensures Power10(2) == 100 && Power10(4) == 10000 && Power10(9) == 1_000_000_000
  {
  }

  lemma ClockOrder(t: Stamp, u: Stamp)
    requires Shown(t) && Shown(u)
    ensures Less(ClockPart(t), ClockPart(u)) <==>
      if t.hour != u.hour then t.hour < u.hour
      else if t.minute != u.minute then t.minute < u.minute
      else if t.second != u.second then t.second < u.second
      else t.nanos < u.nanos
  {
    Widths();
    var nt, nu := Pad(t.nanos, 9), Pad(u.nanos, 9);
    PadOrder(t.nanos, u.nanos, 9);
    SameHead(".", nt, nu);
    FieldOrder(t.second, u.second, 2, "." + nt, "." + nu);
    var st, su := Pad(t.second, 2) + ("." + nt), Pad(u.second, 2) + ("." + nu);
    FieldOrder(t.minute, u.minute, 2, st, su);
    FieldOrder(t.hour, u.hour, 2, Pad(t.minute, 2) + st, Pad(u.minute, 2) + su);
  }

  lemma TimestampOrder(t: Stamp, u: Stamp)
    requires Shown(t) && Shown(u)
    ensures Less(Timestamp(t), Timestamp(u)) <==> Before(t, u)
  {
    Widths();
    ClockOrder(t, u);
    var ct, cu := "-" + ClockPart(t), "-" + ClockPart(u);
    SameHead("-", ClockPart(t), ClockPart(u));
    FieldOrder(t.day, u.day, 2, ct, cu);
    var dt, du := Pad(t.day, 2) + ct, Pad(u.day, 2) + cu;
    FieldOrder(t.month, u.month, 2, dt, du);
    FieldOrder(t.year, u.year, 4, Pad(t.month, 2) + dt, Pad(u.month, 2) + du);
  }

  /** The order of the generated names is the order of time. */
  lemma NameOrderIsTimeOrder(t: Stamp, u: Stamp)
    requires Shown(t) && Shown(u)
    ensures Less(NameOf(t), NameOf(u)) <==> Before(t, u)
  {
    TimestampOrder(t, u);
    assert |Timestamp(t)| == |Timestamp(u)|;
    LessByFields(Timestamp(t), Timestamp(u), SUFFIX, SUFFIX);
    LessIrreflexive(SUFFIX);
    SameHead(PREFIX, Timestamp(t) + SUFFIX, Timestamp(u) + SUFFIX);
  }

  // ---------------------------------------------------------------- the pattern of downloadable names

  /** backupNameRe: the prefix, 8 digits, '-', 6 digits, '.', 9 digits and the suffix. */
  predicate MatchesPattern(name: string) {
    && |name| == 35 && name[..7] == "backup-" && name[32..] == ".db" && name[15] == '-' && name[22] == '.'
    && Decimal.AllDigits(name[7..15]) && Decimal.AllDigits(name[16..22]) && Decimal.AllDigits(name[23..32])
  }

  lemma {:induction false} PadOfDigits(s: string)
    requires Decimal.AllDigits(s)
    ensures Decimal.Digits(s) < Power10(|s|) && Pad(Decimal.Digits(s), |s|) == s
  {
    if |s| > 0 {
      var init := s[..|s|-1];
      PadOfDigits(init);
      assert s == init + [s[|s|-1]];
      assert Decimal.IsDigit(s[|s|-1]);
    }
  }

  /** Any digits in the places of the layout are a time as the layout shows it. */
  lemma DigitsAreStamp(year: string, month: string, day: string, hour: string, minute: string, second: string, nanos: string) returns (t: Stamp)
    requires |year| == 4 && |month| == 2 && |day| == 2 && |hour| == 2 && |minute| == 2 && |second| == 2 && |nanos| == 9
    requires forall s | s in {year, month, day, hour, minute, second, nanos} :: Decimal.AllDigits(s)
    ensures Shown(t)
    ensures Timestamp(t) == year + (month + (day + ("-" + (hour + (minute + (second + ("." + nanos)))))))
  {
    Widths();
    forall s | s in {year, month, day, hour, minute, second, nanos}
      ensures Decimal.Digits(s) < Power10(|s|) && Pad(Decimal.Digits(s), |s|) == s
    {
      PadOfDigits(s);
    }
    t := Stamp(Decimal.Digits(year), Decimal.Digits(month), Decimal.Digits(day), Decimal.Digits(hour),
               Decimal.Digits(minute), Decimal.Digits(second), Decimal.Digits(nanos));
  }

  lemma GeneratedMatches(t: Stamp)
    ensures MatchesPattern(NameOf(t))
  {
  }

  lemma PartOfDigits(name: string, lo: nat, hi: nat, i: nat, j: nat)
    requires lo <= i <= j <= hi <= |name| && Decimal.AllDigits(name[lo..hi])
    ensures Decimal.AllDigits(name[i..j])
  {
    assert forall k | 0 <= k < j - i :: name[i..j][k] == name[lo..hi][i - lo + k];
  }

  lemma NameInParts(name: string)
    requires MatchesPattern(name)
    ensures name == PREFIX + ((name[7..11] + (name[11..13] + (name[13..15] + ("-" + (name[16..18] + (name[18..20]
                      + (name[20..22] + ("." + name[23..32])))))))) + SUFFIX)
  {
  }

  lemma MatchingIsGenerated(name: string) returns (t: Stamp)
    requires MatchesPattern(name)
    ensures Shown(t) && NameOf(t) == name
  {
    PartOfDigits(name, 7, 15, 7, 11);
    PartOfDigits(name, 7, 15, 11, 13);
    PartOfDigits(name, 7, 15, 13, 15);
    PartOfDigits(name, 16, 22, 16, 18);
    PartOfDigits(name, 16, 22, 18, 20);
    PartOfDigits(name, 16, 22, 20, 22);
    t := DigitsAreStamp(name[7..11], name[11..13], name[13..15], name[16..18], name[18..20], name[20..22], name[23..32]);
    NameInParts(name);
  }

  /** The names that may be downloaded are exactly those of the generated shape, with any digits in
      the places of the time. */
  lemma PatternIsExact(name: string)
    ensures MatchesPattern(name) <==> exists t :: Shown(t) && NameOf(t) == name
  {
    if MatchesPattern(name) {
      var t := MatchingIsGenerated(name);
    }
    if t :| Shown(t) && NameOf(t) == name {
      GeneratedMatches(t);
    }
  }

  // ---------------------------------------------------------------- rotation

  predicate HasPrefix(s: string, prefix: string) { |prefix| <= |s| && s[..|prefix|] == prefix }
  predicate HasSuffix(s: string, suffix: string) { |suffix| <= |s| && s[|s| - |suffix|..] == suffix }

  predicate IsBackup(name: string) { HasPrefix(name, PREFIX) && HasSuffix(name, SUFFIX) }

  function BackupsIn(files: set<string>): set<string> {
    set n | n in files && IsBackup(n)
  }

  /** The backups of a directory, oldest first. */
  ghost function Ascending(files: set<string>): seq<string> {
    NamesAreOrdered();
    SortedList(BackupsIn(files), NAME_ORDER)
  }

  lemma AscendingLists(files: set<string>, x: string)
    ensures x in Ascending(files) <==> x in BackupsIn(files)
  {
  }

  function Reverse<T>(s: seq<T>): seq<T> {
    seq(|s|, i requires 0 <= i < |s| => s[|s| - 1 - i])
  }

  /** What listBackupFiles shows: newest first. */
  ghost function Listing(files: set<string>): seq<string> {
    Reverse(Ascending(files))
  }

  function Excess(count: nat, keep: nat): nat { if count <= keep then 0 else count - keep }

  /** The directory without its `n` oldest backups. */
  ghost function WithoutOldest(files: set<string>, n: nat): set<string>
    requires n <= |Ascending(files)|
  {
    files - set x | x in Ascending(files)[..n]
  }

  ghost function Pruned(files: set<string>, keep: nat): set<string> {
    WithoutOldest(files, Excess(|Ascending(files)|, keep))
  }

  lemma AscendingWithoutOldest(files: set<string>, n: nat)
    requires n <= |Ascending(files)|
    ensures Ascending(WithoutOldest(files, n)) == Ascending(files)[n..]
  {
    NamesAreOrdered();
    SortedListDrop(BackupsIn(files), NAME_ORDER, n);
    BackupsWithout(files, set x | x in Ascending(files)[..n]);
  }

  lemma BackupsWithout(files: set<string>, gone: set<string>)
    ensures BackupsIn(files - gone) == BackupsIn(files) - gone
  {
  }

  /** After pruning, the listing is the first `keep` entries of the listing before, and other
      files are untouched. */
  lemma PruneKeepsNewest(files: set<string>, keep: nat)
    ensures var before := Listing(files);
      Listing(Pruned(files, keep)) == before[..if |before| <= keep then |before| else keep]
    ensures forall n | n in files && !(|n| >= 7 && n[..7] == "backup-" && |n| >= 3 && n[|n| - 3..] == ".db") :: n in Pruned(files, keep)
    ensures Pruned(files, keep) <= files
  {
    var names := Ascending(files);
    var n := Excess(|names|, keep);
    AscendingWithoutOldest(files, n);
    ReverseDrop(names, n);
    forall x | x in files && !IsBackup(x) ensures x !in names[..n] {
      AscendingLists(files, x);
    }
  }

  lemma ReverseDrop<T>(s: seq<T>, n: nat)
    requires n <= |s|
    ensures Reverse(s[n..]) == Reverse(s)[..|s| - n]
  {
  }

  lemma OneMoreOldest(files: set<string>, n: nat)
    requires n < |Ascending(files)|
    ensures WithoutOldest(files, n + 1) == WithoutOldest(files, n) - {Ascending(files)[n]}
  {
  }

  class BackupDir {
    /** Names of the regular files; other entries are never looked at. */
    var files: set<string>
    const reliable: bool

    method Attempt() returns (ok: bool)
      ensures reliable ==> ok
    {
      ok := *;
      if reliable { ok := true; }
    }

    /** pruneBackups. A removal that fails leaves the rest, so only the oldest are ever gone. */
    method PruneBackups(keep: nat) returns (ok: bool)
      modifies this
      ensures ok ==> files == Pruned(old(files), keep)
      ensures exists n | 0 <= n <= Excess(|Ascending(old(files))|, keep) :: files == WithoutOldest(old(files), n)
      ensures reliable ==> ok
    {
      ghost var before := files;
      assert WithoutOldest(before, 0) == before;
      ok := Attempt();
      if !ok { return; }
      var names := SortedNames();
      if |names| <= keep { return; }
      for n := 0 to |names| - keep
        invariant files == WithoutOldest(before, n)
      {
        ok := Attempt();
        if !ok { return; }
        OneMoreOldest(before, n);
        files := files - {names[n]};
      }
      ok := true;
    }

    /** The names found in the directory, sorted. */
    method SortedNames() returns (names: seq<string>)
      ensures names == Ascending(files)
    {
      NamesAreOrdered();
      var found := set n | n in files && IsBackup(n);
      names := Sort(found, NAME_ORDER);
    }

    method ListBackupFiles() returns (names: seq<string>)
      ensures names == Listing(files)
    {
      names := SortedNames();
      names := Reverse(names);
    }

    /** BackupRotate: a snapshot named after the time, then the prune. `path` is "" if no snapshot
        was made; a prune that fails does not take the snapshot back. */
    method BackupRotate(now: Stamp, keep: nat) returns (path: string, ok: bool)
      modifies this
      ensures ok ==> path == NameOf(now) && files == Pruned(old(files) + {NameOf(now)}, keep)
      ensures path == "" ==> files == old(files)
      ensures path != "" ==> path == NameOf(now) && NameOf(now) !in old(files)
      ensures path != "" ==>
        exists n | 0 <= n <= Excess(|Ascending(old(files) + {path})|, keep) :: files == WithoutOldest(old(files) + {path}, n)
      ensures NameOf(now) in old(files) ==> path == ""
      ensures reliable && NameOf(now) !in old(files) ==> ok
    {
      ok := Attempt();
      if !ok || NameOf(now) in files { return "", false; }
      files := files + {NameOf(now)};
      ok := PruneBackups(keep);
      path := NameOf(now);
    }
  }

  /** A backup named later than all others is listed last. */
  lemma NewestIsLast(files: set<string>, name: string)
    requires IsBackup(name) && forall x | x in BackupsIn(files) :: Less(x, name)
    ensures Ascending(files + {name}) == Ascending(files) + [name] && name !in Ascending(files)
  {
    NamesAreOrdered();
    assert BackupsIn(files + {name}) == BackupsIn(files) + {name};
    assert forall x | x in BackupsIn(files) :: NAME_ORDER(x, name);
    SortedListAppend(BackupsIn(files), name, NAME_ORDER);
    if name in Ascending(files) {
      AscendingLists(files, name);
      LessIrreflexive(name);
    }
  }

  /** It survives the prune, however far that gets. */
  lemma NewestSurvives(files: set<string>, name: string, keep: nat, n: nat)
    requires keep >= 1 && IsBackup(name) && (forall x | x in BackupsIn(files) :: Less(x, name))
    requires n <= Excess(|Ascending(files + {name})|, keep)
    ensures name in WithoutOldest(files + {name}, n)
  {
    NewestIsLast(files, name);
    assert (Ascending(files) + [name])[..n] == Ascending(files)[..n];
  }

  // ---------------------------------------------------------------- any number of rotations

  /** The directory after successful rotations at the given times. */
  ghost function Rotated(files: set<string>, times: seq<Stamp>, keep: nat): set<string>
    decreases |times|
  {
    if |times| == 0 then files
    else Pruned(Rotated(files, times[..|times|-1], keep) + {NameOf(times[|times|-1])}, keep)
  }

  ghost predicate ClockGoesForward(times: seq<Stamp>) {
    (forall i | 0 <= i < |times| :: Shown(times[i])) && forall i, j | 0 <= i < j < |times| :: Before(times[i], times[j])
  }

  function Names(times: seq<Stamp>): seq<string> {
    seq(|times|, i requires 0 <= i < |times| => NameOf(times[i]))
  }

  lemma NameIsBackup(t: Stamp)
    ensures IsBackup(NameOf(t))
  {
  }

  /** The names of the last `keep` snapshots. */
  function Latest(times: seq<Stamp>, keep: nat): seq<string> {
    Names(times)[Excess(|times|, keep)..]
  }

  lemma LatestMeaning(times: seq<Stamp>, keep: nat)
    ensures |Latest(times, keep)| == (if |times| <= keep then |times| else keep)
    ensures forall i | 0 <= i < |Latest(times, keep)| ::
      Latest(times, keep)[i] == NameOf(times[|times| - |Latest(times, keep)| + i])
  {
  }

  /** With a clock that goes forward and keep >= 1, from a directory without backups, exactly the
      last min(keep, n) of n snapshots are there. */
  lemma {:induction false} RotationKeepsLatest(files: set<string>, times: seq<Stamp>, keep: nat)
    requires keep >= 1 && BackupsIn(files) == {} && ClockGoesForward(times)
    ensures Ascending(Rotated(files, times, keep)) == Latest(times, keep)
    decreases |times|
  {
    if |times| == 0 {
      NoBackups(files);
    } else {
      var init, now := times[..|times|-1], times[|times|-1];
      assert times == init + [now];
      ClockPrefix(init, now);
      RotationKeepsLatest(files, init, keep);
      OneMoreRotation(Rotated(files, init, keep), init, now, keep);
    }
  }

  lemma NoBackups(files: set<string>)
    requires BackupsIn(files) == {}
    ensures Ascending(files) == []
  {
  }

  lemma ClockPrefix(init: seq<Stamp>, now: Stamp)
    requires ClockGoesForward(init + [now])
    ensures ClockGoesForward(init)
  {
    assert forall i | 0 <= i < |init| :: (init + [now])[i] == init[i];
  }

  lemma OneMoreRotation(before: set<string>, init: seq<Stamp>, now: Stamp, keep: nat)
    requires keep >= 1 && ClockGoesForward(init + [now]) && Ascending(before) == Latest(init, keep)
    ensures Ascending(Pruned(before + {NameOf(now)}, keep)) == Latest(init + [now], keep)
  {
    NewestGoesLast(before, Latest(init, keep), init, now);
    NamesAppend(init, now);
    AddThenPrune(before, Names(init), NameOf(now), keep);
  }

  lemma NamesAppend(init: seq<Stamp>, now: Stamp)
    ensures Names(init + [now]) == Names(init) + [NameOf(now)]
  {
  }

  lemma AddThenPrune(before: set<string>, names: seq<string>, name: string, keep: nat)
    requires keep >= 1 && Ascending(before + {name}) == names[Excess(|names|, keep)..] + [name]
    ensures Ascending(Pruned(before + {name}, keep)) == (names + [name])[Excess(|names| + 1, keep)..]
  {
    var grown := before + {name};
    AscendingWithoutOldest(grown, Excess(|Ascending(grown)|, keep));
    KeepLatest(names, name, keep);
  }

  lemma KeepLatest(names: seq<string>, name: string, keep: nat)
    requires keep >= 1
    ensures var grown := names[Excess(|names|, keep)..] + [name];
      grown[Excess(|grown|, keep)..] == (names + [name])[Excess(|names| + 1, keep)..]
  {
  }

  lemma NewestGoesLast(before: set<string>, kept: seq<string>, init: seq<Stamp>, now: Stamp)
    requires Ascending(before) == kept && ClockGoesForward(init + [now])
    requires forall x | x in kept :: x in Names(init)
    ensures Ascending(before + {NameOf(now)}) == kept + [NameOf(now)]
  {
    NameIsBackup(now);
    var times := init + [now];
    forall x | x in BackupsIn(before) ensures Less(x, NameOf(now)) {
      AscendingLists(before, x);
      var i :| 0 <= i < |init| && Names(init)[i] == x;
      assert times[i] == init[i] && times[|init|] == now;
      NameOrderIsTimeOrder(init[i], now);
    }
    NewestIsLast(before, NameOf(now));
  }
}
