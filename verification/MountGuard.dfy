/** Offline tracking of removable drives: the flag on each asset against a snapshot of the mount table, under failing updates. */
module MountGuard {
  type Mount = string
  type Id = nat

  datatype Asset = Asset(path: string, offline: bool)

  // ---------------------------------------------------------------- paths and mounts

  /** strings.TrimRight(s, "/"). */
  function TrimSlashes(s: string): (r: string)
    ensures r <= s && (r != "" ==> r[|r| - 1] != '/') && forall i :: |r| <= i < |s| ==> s[i] == '/'
  {
    if s != "" && s[|s| - 1] == '/' then TrimSlashes(s[..|s| - 1]) else s
  }

  function Prefix(m: Mount): string {
    TrimSlashes(m) + "/"
  }

  /** The prefix comparison of the UPDATE statements: exact, no wildcards. */
  predicate Under(path: string, m: Mount) {
    Prefix(m) <= path
  }

  const SYSTEM_MOUNTS := {"/media/root-ro", "/media/root-rw", "/mnt/overlay", "/mnt/metadata"}
  const EXCLUDED_PREFIX := "/media/devmon/"
  const REMOVABLE := "/media/"
  const SNAPSHOTS := "/.snapshots/"

  predicate StartsAt(p: string, i: nat, part: string) {
    i <= |p| && part <= p[i..]
  }

  /** Some component of the path is the snapshots directory. */
  predicate InSnapshotsDir(path: string) {
    var p := "/" + path + "/";
    exists i: nat :: i < |p| && StartsAt(p, i, SNAPSHOTS)
  }

  predicate IsExcludedMount(m: Mount) {
    m in SYSTEM_MOUNTS || EXCLUDED_PREFIX <= m || InSnapshotsDir(m)
  }

  /** The assets the guard is responsible for. */
  predicate Guarded(path: string) {
    REMOVABLE <= path && !(EXCLUDED_PREFIX <= path)
  }

  predicate UnderAny(path: string, mounts: set<Mount>) {
    exists m :: m in mounts && Under(path, m)
  }

  /** Neither mount lies in the other. */
  predicate Apart(m: Mount, n: Mount) {
    !(Prefix(m) <= Prefix(n)) && !(Prefix(n) <= Prefix(m))
  }

  ghost predicate NonNested(mounts: set<Mount>) {
    forall m, n :: m in mounts && n in mounts && m != n ==> Apart(m, n)
  }

  lemma ApartMeansDisjoint(m: Mount, n: Mount, path: string)
    requires Under(path, m) && Under(path, n)
    ensures !Apart(m, n)
  {
    if |Prefix(m)| <= |Prefix(n)| {
      assert Prefix(m) == path[..|Prefix(m)|] == Prefix(n)[..|Prefix(m)|];
    } else {
      assert Prefix(n) == path[..|Prefix(n)|] == Prefix(m)[..|Prefix(n)|];
    }
  }

  // ---------------------------------------------------------------- what it means to lie under a mount

  /** t is the mount point without its trailing slashes. */
  predicate Trimmed(m: Mount, t: string) {
    t <= m && (t == "" || t[|t| - 1] != '/') && forall i :: |t| <= i < |m| ==> m[i] == '/'
  }

  /** The path continues t with a slash. */
  predicate In(path: string, t: string) {
    |t| < |path| && path[..|t|] == t && path[|t|] == '/'
  }

  lemma NotLonger(m: Mount, t: string, r: string)
    requires Trimmed(m, t) && Trimmed(m, r)
    ensures |t| <= |r|
  {
  }

  lemma TrimmedIs(m: Mount, t: string)
    requires Trimmed(m, t)
    ensures t == TrimSlashes(m)
  {
    NotLonger(m, t, TrimSlashes(m));
    NotLonger(m, TrimSlashes(m), t);
  }

  /** A path lies under a mount exactly when it continues the trimmed mount point with a slash. */
  lemma UnderIsIn(path: string, m: Mount, t: string)
    requires Trimmed(m, t)
    ensures Under(path, m) <==> In(path, t)
  {
    TrimmedIs(m, t);
    assert Prefix(m) == t + "/";
    if Prefix(m) <= path {
      assert path[..|t| + 1] == t + "/";
      assert path[..|t| + 1][..|t|] == t && path[..|t| + 1][|t|] == '/';
    }
    if In(path, t) { assert path[..|t| + 1] == path[..|t|] + [path[|t|]]; }
  }

  /** Mount points of which one continues the name of the other, as usb2 does usb, have no path in common. */
  lemma SiblingsApart(path: string, t: string, s: string)
    requires (t == "" || t[|t| - 1] != '/') && s != "" && s[0] != '/'
    ensures !(Under(path, t) && Under(path, t + s))
  {
    var u := TrimSlashes(t + s);
    assert Trimmed(t, t) && Trimmed(t + s, u);
    UnderIsIn(path, t, t);
    UnderIsIn(path, t + s, u);
    assert (t + s)[|t|] == s[0];
    assert |u| > |t|;
    if In(path, u) { assert path[..|u|][|t|] == u[|t|]; }
  }

  // ---------------------------------------------------------------- what the statements do

  /** The offline flag set to `flag` on every asset under one of the mounts. */
  function Flagged(assets: map<Id, Asset>, mounts: set<Mount>, flag: bool): map<Id, Asset> {
    map id | id in assets :: if UnderAny(assets[id].path, mounts) then assets[id].(offline := flag) else assets[id]
  }

  /** Every guarded asset under none of the mounts goes offline. */
  function OfflineOutside(assets: map<Id, Asset>, mounts: set<Mount>): map<Id, Asset> {
    map id | id in assets ::
      if Guarded(assets[id].path) && !UnderAny(assets[id].path, mounts) then assets[id].(offline := true) else assets[id]
  }

  /** A poll in which the updates for the mounts in `fails` fail. */
  function Polled(assets: map<Id, Asset>, prev: set<Mount>, cur: set<Mount>, fails: set<Mount>): map<Id, Asset> {
    Flagged(Flagged(assets, prev - cur - fails, true), cur - prev - fails, false)
  }

  /** A mount whose update failed keeps its old state in the snapshot, so that the next poll tries again. */
  function Snapshot(prev: set<Mount>, cur: set<Mount>, fails: set<Mount>): set<Mount> {
    (cur - ((cur - prev) * fails)) + ((prev - cur) * fails)
  }

  lemma FlaggedUnion(assets: map<Id, Asset>, done: set<Mount>, m: Mount, flag: bool)
    ensures Flagged(Flagged(assets, done, flag), {m}, flag) == Flagged(assets, done + {m}, flag)
  {
    var a, b := Flagged(Flagged(assets, done, flag), {m}, flag), Flagged(assets, done + {m}, flag);
    forall id | id in assets ensures a[id] == b[id] {
      assert UnderAny(assets[id].path, {m}) <==> Under(assets[id].path, m);
      assert UnderAny(assets[id].path, done + {m}) <==> UnderAny(assets[id].path, done) || Under(assets[id].path, m) by {
        if UnderAny(assets[id].path, done) {
          var x :| x in done && Under(assets[id].path, x);
          assert x in done + {m};
        }
        assert m in done + {m};
      }
    }
  }

  lemma FlaggedNone(assets: map<Id, Asset>, flag: bool)
    ensures Flagged(assets, {}, flag) == assets
  {
  }

  // ---------------------------------------------------------------- the invariant

  ghost predicate AssetAligned(a: Asset, mounts: set<Mount>) {
    Guarded(a.path) ==> (!a.offline <==> UnderAny(a.path, mounts))
  }

  /** A guarded asset is online exactly when its path lies under a mount of the snapshot. */
  ghost predicate Aligned(assets: map<Id, Asset>, mounts: set<Mount>) {
    forall id :: id in assets ==> AssetAligned(assets[id], mounts)
  }

  /** The flags after the startup pass. */
  function Startup(assets: map<Id, Asset>, cur: set<Mount>, fails: set<Mount>, outsideWorks: bool): map<Id, Asset> {
    var online := Flagged(assets, cur - fails, false);
    if outsideWorks then OfflineOutside(online, cur) else online
  }

  /** An asset whose flag is wrong and whose update is among those that fail. */
  predicate Missed(a: Asset, cur: set<Mount>, fails: set<Mount>, outsideWorks: bool) {
    Guarded(a.path) && if UnderAny(a.path, cur) then a.offline && !UnderAny(a.path, cur - fails) else !a.offline && !outsideWorks
  }

  /** The startup pass aligns the flags with the mounts read exactly when it misses no asset; when every update works it
      misses none. */
  lemma StartupAlignsIff(assets: map<Id, Asset>, cur: set<Mount>, fails: set<Mount>, outsideWorks: bool)
    ensures Aligned(Startup(assets, cur, fails, outsideWorks), cur) <==>
            forall id :: id in assets ==> !Missed(assets[id], cur, fails, outsideWorks)
    ensures cur !! fails && outsideWorks ==> Aligned(Startup(assets, cur, fails, outsideWorks), cur)
  {
    var after := Startup(assets, cur, fails, outsideWorks);
    assert after.Keys == assets.Keys;
    forall id | id in assets ensures AssetAligned(after[id], cur) <==> !Missed(assets[id], cur, fails, outsideWorks) {
      StartupAsset(assets, id, cur, fails, outsideWorks);
    }
    if cur !! fails { assert cur - fails == cur; }
  }

  lemma StartupAsset(assets: map<Id, Asset>, id: Id, cur: set<Mount>, fails: set<Mount>, outsideWorks: bool)
    requires id in assets
    ensures AssetAligned(Startup(assets, cur, fails, outsideWorks)[id], cur) <==> !Missed(assets[id], cur, fails, outsideWorks)
  {
    var path := assets[id].path;
    if UnderAny(path, cur - fails) {
      var m :| m in cur - fails && Under(path, m);
      assert m in cur;
    }
  }

  /** What startup missed stays missed while the mount table stays as it was: the snapshot calls the mounts handled. */
  lemma MissedStaysMissed(assets: map<Id, Asset>, cur: set<Mount>, fails: set<Mount>)
    ensures Polled(assets, cur, cur, fails) == assets && Snapshot(cur, cur, fails) == cur
  {
    assert cur - cur - fails == {};
    FlaggedNone(assets, true);
    FlaggedNone(assets, false);
  }

  /** The path lies under a mount that was just marked offline, under none just marked online, yet under one still listed. */
  predicate Contested(path: string, prev: set<Mount>, cur: set<Mount>, fails: set<Mount>) {
    && UnderAny(path, prev - cur - fails)
    && !UnderAny(path, cur - prev - fails)
    && UnderAny(path, Snapshot(prev, cur, fails))
  }

  lemma UnderSnapshot(path: string, prev: set<Mount>, cur: set<Mount>, fails: set<Mount>)
    ensures UnderAny(path, Snapshot(prev, cur, fails)) ==> UnderAny(path, prev) || UnderAny(path, cur - prev - fails)
    ensures UnderAny(path, cur - prev - fails) ==> UnderAny(path, Snapshot(prev, cur, fails))
    ensures UnderAny(path, prev) ==> UnderAny(path, Snapshot(prev, cur, fails)) || UnderAny(path, prev - cur - fails)
  {
    var next := Snapshot(prev, cur, fails);
    if UnderAny(path, next) {
      var m :| m in next && Under(path, m);
      assert m in prev || m in cur - prev - fails;
    }
    if UnderAny(path, cur - prev - fails) {
      var m :| m in cur - prev - fails && Under(path, m);
      assert m in next;
    }
    if UnderAny(path, prev) {
      var m :| m in prev && Under(path, m);
      assert m in next || m in prev - cur - fails;
    }
  }

  lemma PollAligns(a: Asset, assets: map<Id, Asset>, id: Id, prev: set<Mount>, cur: set<Mount>, fails: set<Mount>)
    requires id in assets && assets[id] == a && AssetAligned(a, prev)
    ensures AssetAligned(Polled(assets, prev, cur, fails)[id], Snapshot(prev, cur, fails)) <==>
            (Guarded(a.path) ==> !Contested(a.path, prev, cur, fails))
  {
    UnderSnapshot(a.path, prev, cur, fails);
  }

  /** Whatever updates fail, a poll keeps the invariant exactly when no guarded asset is contested. */
  lemma PollKeepsIffUncontested(assets: map<Id, Asset>, prev: set<Mount>, cur: set<Mount>, fails: set<Mount>)
    requires Aligned(assets, prev)
    ensures Aligned(Polled(assets, prev, cur, fails), Snapshot(prev, cur, fails)) <==>
            forall id :: id in assets && Guarded(assets[id].path) ==> !Contested(assets[id].path, prev, cur, fails)
  {
    var after := Polled(assets, prev, cur, fails);
    forall id | id in assets
      ensures AssetAligned(after[id], Snapshot(prev, cur, fails)) <==>
              (Guarded(assets[id].path) ==> !Contested(assets[id].path, prev, cur, fails))
    {
      PollAligns(assets[id], assets, id, prev, cur, fails);
    }
    assert after.Keys == assets.Keys;
  }

  /** Mounts that are not nested contest nothing. */
  lemma NonNestedUncontested(path: string, prev: set<Mount>, cur: set<Mount>, fails: set<Mount>)
    requires NonNested(prev + cur)
    ensures !Contested(path, prev, cur, fails)
  {
    if Contested(path, prev, cur, fails) {
      var m :| m in prev - cur - fails && Under(path, m);
      var n :| n in Snapshot(prev, cur, fails) && Under(path, n);
      ApartMeansDisjoint(m, n, path);
    }
  }

  /** A poll without failures leaves the snapshot equal to the mount table; afterwards an asset is online iff it is mounted. */
  lemma CleanPollCatchesUp(assets: map<Id, Asset>, prev: set<Mount>, cur: set<Mount>)
    requires Aligned(assets, prev) && NonNested(prev + cur)
    ensures Snapshot(prev, cur, {}) == cur && Aligned(Polled(assets, prev, cur, {}), cur)
  {
    assert Snapshot(prev, cur, {}) == cur;
    PollKeepsIffUncontested(assets, prev, cur, {});
    forall id | id in assets ensures !Contested(assets[id].path, prev, cur, {}) {
      NonNestedUncontested(assets[id].path, prev, cur, {});
    }
  }

  /** A failed transition is not lost: it is still pending against the new snapshot. */
  lemma FailedTransitionsStayPending(prev: set<Mount>, cur: set<Mount>, fails: set<Mount>)
    ensures var next := Snapshot(prev, cur, fails);
            next - cur == (prev - cur) * fails && cur - next == (cur - prev) * fails
  {
  }

  /** Unplugging a drive mounted inside another takes its assets offline although the outer mount is still there. */
  lemma NestedMountBreaks()
    ensures var assets, outer, inner := map[0 := Asset("/media/a/b/x.jpg", false)], "/media/a", "/media/a/b";
            && Aligned(assets, {outer, inner})
            && Polled(assets, {outer, inner}, {outer}, {})[0].offline
            && !Aligned(Polled(assets, {outer, inner}, {outer}, {}), Snapshot({outer, inner}, {outer}, {}))
  {
    var outer, inner, path := "/media/a", "/media/a/b", "/media/a/b/x.jpg";
    assert Prefix(outer) == "/media/a/" && Prefix(inner) == "/media/a/b/";
    assert path[..|Prefix(outer)|] == Prefix(outer) && path[..|Prefix(inner)|] == Prefix(inner);
    assert Under(path, outer) && Under(path, inner);
    assert path[..7] == REMOVABLE;
    assert path[7] != EXCLUDED_PREFIX[7];
    assert Guarded(path);
    assert {outer, inner} - {outer} - {} == {inner};
    assert inner in {outer, inner} - {outer} - {};
    assert {outer} - {outer, inner} - {} == {};
    assert outer in Snapshot({outer, inner}, {outer}, {});
    assert UnderAny(path, {outer, inner} - {outer} - {});
  }

  // ---------------------------------------------------------------- what the passes do, asset by asset

  /** The path lies in one of the mounts. */
  ghost predicate InOneOf(path: string, mounts: set<Mount>) {
    exists m, t :: m in mounts && Trimmed(m, t) && In(path, t)
  }

  lemma UnderAnyIsIn(path: string, mounts: set<Mount>)
    ensures UnderAny(path, mounts) <==> InOneOf(path, mounts)
  {
    if UnderAny(path, mounts) {
      var m :| m in mounts && Under(path, m);
      assert Trimmed(m, TrimSlashes(m));
      UnderIsIn(path, m, TrimSlashes(m));
    }
    if InOneOf(path, mounts) {
      var m, t :| m in mounts && Trimmed(m, t) && In(path, t);
      UnderIsIn(path, m, t);
    }
  }

  /** One update: exactly the assets in the mount get the flag. */
  lemma FlaggedAsset(assets: map<Id, Asset>, m: Mount, t: string, flag: bool, id: Id)
    requires id in assets && Trimmed(m, t)
    ensures Flagged(assets, {m}, flag)[id] == Asset(assets[id].path, if In(assets[id].path, t) then flag else assets[id].offline)
  {
    UnderIsIn(assets[id].path, m, t);
    assert UnderAny(assets[id].path, {m}) <==> Under(assets[id].path, m);
  }

  /** A poll: an asset in a mount that has come back is online; else one in a mount that is gone is offline; every other flag
      stays; mounts whose update fails count for neither. */
  lemma PolledAsset(assets: map<Id, Asset>, prev: set<Mount>, cur: set<Mount>, fails: set<Mount>, id: Id)
    requires id in assets
    ensures Polled(assets, prev, cur, fails).Keys == assets.Keys
    ensures var path := assets[id].path;
            Polled(assets, prev, cur, fails)[id] ==
            Asset(path, if InOneOf(path, cur - prev - fails) then false else if InOneOf(path, prev - cur - fails) then true else assets[id].offline)
  {
    UnderAnyIsIn(assets[id].path, cur - prev - fails);
    UnderAnyIsIn(assets[id].path, prev - cur - fails);
  }

  /** The startup pass: an asset in a mount whose update works is online; else one under /media, not of devmon and in no mount at
      all, is offline if that update works; every other flag stays. */
  lemma StartedAsset(assets: map<Id, Asset>, cur: set<Mount>, fails: set<Mount>, outsideWorks: bool, id: Id)
    requires id in assets
    ensures Startup(assets, cur, fails, outsideWorks).Keys == assets.Keys
    ensures var path := assets[id].path;
            Startup(assets, cur, fails, outsideWorks)[id] ==
            Asset(path, if InOneOf(path, cur - fails) then false
                        else if outsideWorks && "/media/" <= path && !("/media/devmon/" <= path) && !InOneOf(path, cur) then true
                        else assets[id].offline)
  {
    UnderAnyIsIn(assets[id].path, cur - fails);
    UnderAnyIsIn(assets[id].path, cur);
    if InOneOf(assets[id].path, cur - fails) {
      var m, t :| m in cur - fails && Trimmed(m, t) && In(assets[id].path, t);
      assert m in cur;
    }
  }

  /** A mount is excluded exactly when it is one of four system mounts, belongs to devmon, or has a component .snapshots. */
  lemma ExcludedMounts(m: Mount)
    ensures IsExcludedMount(m) <==>
            || m == "/media/root-ro" || m == "/media/root-rw" || m == "/mnt/overlay" || m == "/mnt/metadata"
            || "/media/devmon/" <= m
            || exists i: nat :: IsComponent(m, i, ".snapshots")
  {
    var p := "/" + m + "/";
    forall i: nat ensures i < |p| && StartsAt(p, i, SNAPSHOTS) <==> IsComponent(m, i, ".snapshots") {
      ComponentAt(m, i, ".snapshots");
    }
    if exists i: nat :: IsComponent(m, i, ".snapshots") {
      var i: nat :| IsComponent(m, i, ".snapshots");
      assert i < |p| && StartsAt(p, i, SNAPSHOTS);
    }
  }

  /** The name stands in m from i on, between slashes or the ends of m. */
  predicate IsComponent(m: string, i: nat, name: string) {
    && i + |name| <= |m| && m[i..i + |name|] == name
    && (i > 0 ==> m[i - 1] == '/') && (i + |name| < |m| ==> m[i + |name|] == '/')
  }

  /** A string stands in m from i on exactly when it stands in "/m/" one further. */
  lemma StandsAt(m: string, i: nat, k: nat)
    requires i + k < |m| + 2
    ensures ("/" + m + "/")[i..][k] == if i + k == 0 || i + k == |m| + 1 then '/' else m[i + k - 1]
  {
  }

  lemma ComponentAt(m: string, i: nat, name: string)
    ensures i < |"/" + m + "/"| && StartsAt("/" + m + "/", i, "/" + name + "/") <==> IsComponent(m, i, name)
  {
    var rest, part := ("/" + m + "/")[if i < |m| + 2 then i else 0..], "/" + name + "/";
    if i < |m| + 2 && part <= rest {
      forall k | 0 <= k < |part| ensures part[k] == if i + k == 0 || i + k == |m| + 1 then '/' else m[i + k - 1] {
        StandsAt(m, i, k);
      }
      Spelled(m, i, name);
    }
    if IsComponent(m, i, name) {
      forall k | 0 <= k < |part| ensures part[k] == rest[k] {
        StandsAt(m, i, k);
        if 1 <= k <= |name| { assert m[i..i + |name|][k - 1] == name[k - 1]; }
      }
    }
  }

  lemma Spelled(m: string, i: nat, name: string)
    requires var part := "/" + name + "/";
             i + |part| <= |m| + 2 && forall k :: 0 <= k < |part| ==> part[k] == if i + k == 0 || i + k == |m| + 1 then '/' else m[i + k - 1]
    ensures IsComponent(m, i, name)
  {
    var part, n := "/" + name + "/", |name|;
    forall k | 0 <= k < n ensures m[i + k] == name[k] {
      assert part[k + 1] == name[k];
    }
    assert part[0] == '/' && part[n + 1] == '/';
  }

  // ---------------------------------------------------------------- runs

  datatype World = World(assets: map<Id, Asset>, lastMounts: set<Mount>)

  datatype Event =
    | Poll(cur: set<Mount>, fails: set<Mount>)
    | Index(id: Id, path: string)
    | Remove(id: Id)

  ghost predicate Step(w: World, e: Event, v: World) {
    match e
    case Poll(cur, fails) => v == World(Polled(w.assets, w.lastMounts, cur, fails), Snapshot(w.lastMounts, cur, fails))
    case Index(id, path) => id !in w.assets && v == w.(assets := w.assets[id := Asset(path, false)])
    case Remove(id) => v == w.(assets := w.assets - {id})
  }

  /** Mounts come from a set without nesting, and files are indexed only where the snapshot has a mount. */
  ghost predicate EventOk(w: World, e: Event, universe: set<Mount>) {
    match e
    case Poll(cur, fails) => cur <= universe
    case Index(id, path) => Guarded(path) ==> UnderAny(path, w.lastMounts)
    case Remove(id) => true
  }

  ghost predicate MovesAt(trace: seq<World>, events: seq<Event>, universe: set<Mount>, k: nat)
    requires k < |events| && |trace| == |events| + 1
  {
    Step(trace[k], events[k], trace[k + 1]) && EventOk(trace[k], events[k], universe)
  }

  lemma StepKeeps(w: World, e: Event, v: World, universe: set<Mount>)
    requires NonNested(universe) && w.lastMounts <= universe && Aligned(w.assets, w.lastMounts)
    requires Step(w, e, v) && EventOk(w, e, universe)
    ensures v.lastMounts <= universe && Aligned(v.assets, v.lastMounts)
  {
    if e.Poll? {
      PollKeepsIffUncontested(w.assets, w.lastMounts, e.cur, e.fails);
      forall id | id in w.assets ensures !Contested(w.assets[id].path, w.lastMounts, e.cur, e.fails) {
        NonNestedUncontested(w.assets[id].path, w.lastMounts, e.cur, e.fails);
      }
    }
  }

  /** After a successful alignment and any number of polls, with any update failing at any poll, a guarded asset is online
      exactly when its path lies under a mount of the saved snapshot. */
  lemma {:induction false} RunsStayAligned(trace: seq<World>, events: seq<Event>, universe: set<Mount>, k: nat)
    requires |trace| == |events| + 1 && k < |trace| && NonNested(universe)
    requires trace[0].lastMounts <= universe && Aligned(trace[0].assets, trace[0].lastMounts)
    requires forall j: nat :: j < |events| ==> MovesAt(trace, events, universe, j)
    ensures trace[k].lastMounts <= universe && Aligned(trace[k].assets, trace[k].lastMounts)
  {
    if k > 0 {
      RunsStayAligned(trace, events, universe, k - 1);
      assert MovesAt(trace, events, universe, k - 1);
      StepKeeps(trace[k - 1], events[k - 1], trace[k], universe);
    }
  }

  /** Of two drives the one at m is unplugged; each holds one asset, and only m's lies under m. */
  lemma Unplug(m: Mount, n: Mount, a: string, b: string) returns (w: World, v: World)
    requires m != n && Under(a, m) && !Under(a, n) && Under(b, n) && !Under(b, m)
    ensures w == World(map[0 := Asset(a, false), 1 := Asset(b, false)], {m, n})
    ensures v == World(map[0 := Asset(a, true), 1 := Asset(b, false)], {n})
    ensures Step(w, Poll({n}, {}), v) && Aligned(w.assets, {m, n}) && Aligned(v.assets, {n})
  {
    w := World(map[0 := Asset(a, false), 1 := Asset(b, false)], {m, n});
    v := World(map[0 := Asset(a, true), 1 := Asset(b, false)], {n});
    assert {m, n} - {n} - {} == {m} && {n} - {m, n} - {} == {};
    assert m in {m, n} && n in {m, n} && m in {m} && n in {n};
    assert UnderAny(a, {m}) && !UnderAny(b, {m});
    assert Flagged(w.assets, {m}, true) == v.assets;
    FlaggedNone(v.assets, false);
    assert Snapshot({m, n}, {n}, {}) == {n};
  }

  /** A run in which the drive at /media/usb is unplugged: its asset goes offline, that of /media/usb2 stays online. */
  lemma UnplugSparesSibling() returns (w: World, v: World)
    ensures Step(w, Poll({"/media/usb2"}, {}), v)
    ensures w == World(map[0 := Asset("/media/usb/x.jpg", false), 1 := Asset("/media/usb2/x.jpg", false)], {"/media/usb", "/media/usb2"})
    ensures v == World(map[0 := Asset("/media/usb/x.jpg", true), 1 := Asset("/media/usb2/x.jpg", false)], {"/media/usb2"})
  {
    var m, n, a, b := "/media/usb", "/media/usb2", "/media/usb/x.jpg", "/media/usb2/x.jpg";
    assert Trimmed(m, m) && Trimmed(n, n);
    assert m + "2" == n;
    UnderIsIn(a, m, m);
    UnderIsIn(b, n, n);
    SiblingsApart(a, m, "2");
    SiblingsApart(b, m, "2");
    w, v := Unplug(m, n, a, b);
  }

  // ---------------------------------------------------------------- the guard

  /** toMountSet: the one place where excluded mounts are dropped. */
  method ToMountSet(mounts: seq<Mount>) returns (r: set<Mount>)
    ensures forall m :: m in r <==> m in mounts && !IsExcludedMount(m)
  {
    r := {};
    for i := 0 to |mounts|
      invariant forall m :: m in r <==> m in mounts[..i] && !IsExcludedMount(m)
    {
      assert mounts[..i + 1] == mounts[..i] + [mounts[i]];
      if !IsExcludedMount(mounts[i]) { r := r + {mounts[i]}; }
    }
    assert mounts[..|mounts|] == mounts;
  }

  class Guard {
    var assets: map<Id, Asset>
    var lastMounts: set<Mount>
    var recovering: set<Mount>

    /** One UPDATE; `works` says whether the database accepts it. */
    method Mark(m: Mount, flag: bool, works: bool)
      modifies this`assets
      ensures assets == if works then Flagged(old(assets), {m}, flag) else old(assets)
    {
      if works {
        assets := map id | id in assets :: if assets[id].offline != flag && Under(assets[id].path, m) then assets[id].(offline := flag) else assets[id];
        forall id | id in assets ensures assets[id] == Flagged(old(assets), {m}, flag)[id] {
          assert UnderAny(assets[id].path, {m}) <==> Under(assets[id].path, m);
        }
      }
    }

    /** The startup alignment; the updates for the mounts in `fails` fail, the one for the rest of /media may too, and no
        failure is reported. */
    method AlignWith(cur: set<Mount>, fails: set<Mount>, outsideWorks: bool)
      modifies this`assets
      ensures assets == Startup(old(assets), cur, fails, outsideWorks)
    {
      var rest := cur;
      FlaggedNone(assets, false);
      while rest != {}
        invariant rest <= cur && assets == Flagged(old(assets), cur - rest - fails, false)
        decreases rest
      {
        var m :| m in rest;
        ghost var done := cur - rest - fails;
        FlaggedUnion(old(assets), done, m, false);
        Mark(m, false, m !in fails);
        rest := rest - {m};
        assert cur - rest - fails == if m in fails then done else done + {m};
      }
      assert cur - rest - fails == cur - fails;
      if outsideWorks {
        assets := map id | id in assets ::
          if !assets[id].offline && Guarded(assets[id].path) && !UnderAny(assets[id].path, cur) then assets[id].(offline := true) else assets[id];
      }
    }

    /** Run's opening: one reading of the mount table serves the alignment and the first snapshot. */
    method Start(mounts: seq<Mount>, fails: set<Mount>, outsideWorks: bool)
      modifies this`assets, this`lastMounts
      ensures forall m :: m in lastMounts <==> m in mounts && !IsExcludedMount(m)
      ensures assets == Startup(old(assets), lastMounts, fails, outsideWorks)
    {
      var cur := ToMountSet(mounts);
      AlignWith(cur, fails, outsideWorks);
      lastMounts := cur;
    }

    /** The mounts that are gone, each marked offline; those whose update fails stay in the snapshot. */
    method HandleGone(prev: set<Mount>, cur: set<Mount>, fails: set<Mount>, next0: set<Mount>) returns (next: set<Mount>)
      modifies this`assets
      ensures assets == Flagged(old(assets), prev - cur - fails, true) && next == next0 + (prev - cur) * fails
    {
      next := next0;
      var rest := prev - cur;
      FlaggedNone(assets, true);
      while rest != {}
        invariant rest <= prev - cur
        invariant assets == Flagged(old(assets), prev - cur - fails - rest, true)
        invariant next == next0 + (prev - cur - rest) * fails
        decreases rest
      {
        var m :| m in rest;
        ghost var done := prev - cur - fails - rest;
        FlaggedUnion(old(assets), done, m, true);
        Mark(m, true, m !in fails);
        if m in fails { next := next + {m}; }
        rest := rest - {m};
        assert prev - cur - fails - rest == if m in fails then done else done + {m};
      }
      assert prev - cur - fails - rest == prev - cur - fails;
      assert prev - cur - rest == prev - cur;
    }

    /** The mounts that are back, each marked online and, when that works, recovered; the others leave the snapshot. */
    method HandleBack(prev: set<Mount>, cur: set<Mount>, fails: set<Mount>, next0: set<Mount>) returns (next: set<Mount>, spawned: set<Mount>)
      modifies this`assets, this`recovering
      ensures assets == Flagged(old(assets), cur - prev - fails, false) && next == next0 - (cur - prev) * fails
      ensures spawned == cur - prev - fails - old(recovering) && recovering == old(recovering) + (cur - prev - fails)
    {
      next, spawned := next0, {};
      var rest := cur - prev;
      FlaggedNone(assets, false);
      while rest != {}
        invariant rest <= cur - prev
        invariant assets == Flagged(old(assets), cur - prev - fails - rest, false)
        invariant next == next0 - (cur - prev - rest) * fails
        invariant spawned == cur - prev - fails - rest - old(recovering) && recovering == old(recovering) + (cur - prev - fails - rest)
        decreases rest
      {
        var m :| m in rest;
        ghost var done := cur - prev - fails - rest;
        FlaggedUnion(old(assets), done, m, false);
        Mark(m, false, m !in fails);
        rest := rest - {m};
        assert cur - prev - fails - rest == if m in fails then done else done + {m};
        if m in fails {
          next := next - {m};
          continue;
        }
        if m !in recovering {
          recovering := recovering + {m};
          spawned := spawned + {m};
        }
      }
      assert cur - prev - fails - rest == cur - prev - fails;
      assert cur - prev - rest == cur - prev;
    }

    /** checkOnce; `fails` are the mounts whose UPDATE fails this time, `spawned` those whose recovery starts. */
    method CheckOnce(mounts: seq<Mount>, fails: set<Mount>) returns (cur: set<Mount>, spawned: set<Mount>)
      modifies this
      ensures forall m :: m in cur <==> m in mounts && !IsExcludedMount(m)
      ensures assets == Polled(old(assets), old(lastMounts), cur, fails) && lastMounts == Snapshot(old(lastMounts), cur, fails)
      ensures spawned == cur - old(lastMounts) - fails - old(recovering) && recovering == old(recovering) + (cur - old(lastMounts) - fails)
    {
      cur := ToMountSet(mounts);
      var prev := lastMounts;
      var next := HandleGone(prev, cur, fails, cur);
      next, spawned := HandleBack(prev, cur, fails, next);
      lastMounts := next;
      assert next == Snapshot(prev, cur, fails);
    }
  }
}
