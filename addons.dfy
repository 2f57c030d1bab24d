/**
  The addon manager: it scans a directory of new addons, keeps the latest version
  of each addon id, remembers that result for later calls, and lists the addons
  already published in the repository directory.
 */
module Addons {
  import opened Wrappers
  import opened Versions
  import opened Dicts

  /**
    An addon as the manager sees it: the `id` and `version` attributes of its
    `addon.xml`, the lines of that file, and where it was found.
   */
  datatype Addon = Addon(id: string, version: Version, xmlLines: seq<string>, path: string)

  /**
    What globbing a directory yields: whether it is a directory at all, and for
    each matching path, in glob order, the addon loaded from it or `None` when
    loading raised `ValueError` or `BadZipFile`.
   */
  datatype Listing = Listing(isDir: bool, found: seq<Option<Addon>>)

  // The glob patterns of a scan: the fresh scan of `get_addons_not_in_repo` uses
  // `*.zip`, `*/addon.xml` and `*/*.zip`; the scan of `get_addons_in_repo` only `*/*.zip`.
  datatype Patterns = Fresh | InRepo

  /**
    The file system as the manager reads it: whether a path is a directory, and what
    globbing a directory with a set of patterns yields.
   */
  datatype FileSystem = FileSystem(isDir: string -> bool, glob: (string, Patterns) -> seq<Option<Addon>>)
  {
    function List(root: string, patterns: Patterns): Listing
    {
      Listing(isDir(root), glob(root, patterns))
    }
  }

  datatype ScanError = NotADirectory(path: string)

  /**
    The addons that loaded, in the order they were found. A path whose load raised
    `ValueError` or `BadZipFile` is `None` and is skipped.
   */
  function Loaded(found: seq<Option<Addon>>): (r: seq<Addon>)
    ensures |r| <= |found|
    ensures forall a :: a in r <==> Some(a) in found
  {
    if found == [] then []
    else
      var r := Loaded(found[..|found| - 1]);
      match found[|found| - 1]
      case None => r
      case Some(a) => r + [a]
  }

  lemma LoadedSnoc(found: seq<Option<Addon>>, x: Option<Addon>)
    ensures Loaded(found + [x]) == Loaded(found) + (if x.Some? then [x.value] else [])
  {
    assert (found + [x])[..|found|] == found;
  }

  lemma LoadedPrefix(found: seq<Option<Addon>>, i: nat)
    requires i < |found|
    ensures Loaded(found[..i + 1]) == Loaded(found[..i]) + (if found[i].Some? then [found[i].value] else [])
  {
    assert found[..i + 1] == found[..i] + [found[i]];
    LoadedSnoc(found[..i], found[i]);
  }

  /** `__glob_addon`: a root that is not a directory raises `ValueError`; otherwise the addons that loaded. */
  function Glob(root: string, listing: Listing): (r: Result<seq<Addon>, ScanError>)
    ensures r.Err? <==> !listing.isDir
    ensures r.Err? ==> r.error == NotADirectory(root)
    ensures r.Ok? ==> forall a :: a in r.value <==> Some(a) in listing.found
  {
    if !listing.isDir then Err(NotADirectory(root)) else Ok(Loaded(listing.found))
  }

  function Ids(s: seq<Addon>): (ids: seq<string>)
    ensures |ids| == |s| && forall i :: 0 <= i < |s| ==> ids[i] == s[i].id
  {
    seq(|s|, i requires 0 <= i < |s| => s[i].id)
  }

  lemma IdsSnoc(s: seq<Addon>, a: Addon)
    ensures Ids(s + [a]) == Ids(s) + [a.id]
  {
  }

  // ---------------------------------------------------------------------------
  // The keep-latest fold of `get_addons_not_in_repo`, as a specification
  // ---------------------------------------------------------------------------

  /**
    One step of the scan: an unknown id is inserted; a known id is replaced only when
    the candidate's version is `>` the stored one, and otherwise nothing changes.
   */
  function Offer(m: Dict<string, Addon>, a: Addon): (r: Dict<string, Addon>)
    requires m.Valid()
    ensures r.Valid()
    ensures a.id !in m.items ==> r.items == m.items[a.id := a] && r.keys == m.keys + [a.id]
    ensures a.id in m.items && Gt(a.version, m.items[a.id].version)
            ==> r.items == m.items[a.id := a] && r.keys == m.keys
    ensures a.id in m.items && !Gt(a.version, m.items[a.id].version) ==> r == m
  {
    if a.id in m.items then
      if Gt(a.version, m.items[a.id].version) then m.Put(a.id, a) else m
    else m.Put(a.id, a)
  }

  /**
    The map after scanning `s` from an empty map: its keys are the ids of `s` in the
    order they first occur, and each id maps to one of its own candidates.
   */
  function Resolve(s: seq<Addon>): (r: Dict<string, Addon>)
    ensures r.Valid()
    ensures r.keys == FirstOccurrences(Ids(s))
    ensures forall id | id in r.items :: r.items[id].id == id && r.items[id] in s
  {
    if s == [] then Empty()
    else
      var p := s[..|s| - 1];
      var a := s[|s| - 1];
      var m := Resolve(p);
      IdsSnoc(p, a);
      assert p + [a] == s;
      FirstOccurrencesSnoc(Ids(p), a.id);
      assert a.id in m.items <==> a.id in Ids(p);
      Offer(m, a)
  }

  lemma ResolveSnoc(s: seq<Addon>, a: Addon)
    ensures Resolve(s + [a]) == Offer(Resolve(s), a)
  {
    assert (s + [a])[..|s|] == s;
  }

  /** `w` is the greatest candidate for `id` in `s` under the reference order `Above`. */
  ghost predicate IsLatest(s: seq<Addon>, id: string, w: Addon)
  {
    w in s && w.id == id &&
    forall c | c in s && c.id == id :: c.version == w.version || Above(w.version, c.version)
  }

  /** An id that the map does not hold belongs to none of the scanned candidates. */
  lemma NotResolvedNotScanned(s: seq<Addon>, id: string)
    requires id !in Resolve(s).items
    ensures forall c | c in s :: c.id != id
  {
    forall c | c in s ensures c.id != id {
      var i :| 0 <= i < |s| && s[i] == c;
      assert Ids(s)[i] == c.id;
    }
  }

  lemma LatestAfterInsert(p: seq<Addon>, a: Addon)
    requires forall c | c in p :: c.id != a.id
    ensures IsLatest(p + [a], a.id, a)
  {
  }

  lemma LatestAfterReplace(p: seq<Addon>, a: Addon, w: Addon)
    requires IsLatest(p, a.id, w) && Gt(a.version, w.version)
    ensures IsLatest(p + [a], a.id, a)
  {
    GtIsAboveOrSelfWithSuffix(a.version, w.version);
    forall c | c in p && c.id == a.id
      ensures c.version == a.version || Above(a.version, c.version)
    {
      if c.version != w.version && a.version != w.version {
        AboveTransitive(a.version, w.version, c.version);
      }
    }
  }

  lemma LatestAfterKeep(p: seq<Addon>, a: Addon, w: Addon)
    requires IsLatest(p, a.id, w) && !Gt(a.version, w.version)
    ensures IsLatest(p + [a], a.id, w)
  {
    if a.version != w.version {
      AboveTotal(w.version, a.version);
      GtIsAboveOrSelfWithSuffix(a.version, w.version);
    }
  }

  lemma LatestOtherId(p: seq<Addon>, a: Addon, id: string, w: Addon)
    requires IsLatest(p, id, w) && a.id != id
    ensures IsLatest(p + [a], id, w)
  {
  }

  /**
    Whatever the scan order, the record kept for an id is a candidate with that id
    that no other candidate's version is above.
   */
  lemma {:induction false} ResolveIsLatest(s: seq<Addon>, id: string)
    requires id in Resolve(s).items
    ensures IsLatest(s, id, Resolve(s).items[id])
  {
    var p := s[..|s| - 1];
    var a := s[|s| - 1];
    SplitLast(s);
    if id in Resolve(p).items {
      ResolveIsLatest(p, id);
    }
    LatestStep(p, a, id);
  }

  lemma SplitLast<T>(s: seq<T>)
    requires s != []
    ensures s == s[..|s| - 1] + [s[|s| - 1]]
  {
  }

  /** Scanning one more candidate keeps the kept record the latest, given that it was before. */
  lemma LatestStep(p: seq<Addon>, a: Addon, id: string)
    requires id in Resolve(p).items ==> IsLatest(p, id, Resolve(p).items[id])
    requires id in Resolve(p + [a]).items
    ensures IsLatest(p + [a], id, Resolve(p + [a]).items[id])
  {
    ResolveSnoc(p, a);
    var m := Resolve(p);
    if a.id != id {
      LatestOtherId(p, a, id, m.items[id]);
    } else if id !in m.items {
      NotResolvedNotScanned(p, id);
      LatestAfterInsert(p, a);
    } else if Gt(a.version, m.items[id].version) {
      LatestAfterReplace(p, a, m.items[id]);
    } else {
      LatestAfterKeep(p, a, m.items[id]);
    }
  }

  /**
    The kept record's version is the greatest of its id's candidates: `>=` holds
    against every one of them.
   */
  lemma ResolveIsGreatest(s: seq<Addon>, c: Addon)
    requires c in s
    ensures c.id in Resolve(s).items
    ensures Ge(Resolve(s).items[c.id].version, c.version)
  {
    assert c.id in Ids(s);
    ResolveIsLatest(s, c.id);
    var w := Resolve(s).items[c.id];
    if c.version != w.version {
      GtIsAboveOrSelfWithSuffix(w.version, c.version);
    }
  }

  /**
    The scan order does not matter for the result's ids and versions: two scans of
    the same candidates keep, for every id, records with the same version.
   */
  lemma ScanOrderIrrelevant(s1: seq<Addon>, s2: seq<Addon>, id: string)
    requires multiset(s1) == multiset(s2)
    ensures id in Resolve(s1).items <==> id in Resolve(s2).items
    ensures id in Resolve(s1).items ==> Resolve(s1).items[id].version == Resolve(s2).items[id].version
  {
    forall a | a in s1 ensures a in s2 { assert a in multiset(s1); }
    forall a | a in s2 ensures a in s1 { assert a in multiset(s2); }
    if id in Resolve(s1).items && id !in Resolve(s2).items {
      ResolveIsLatest(s1, id);
      NotResolvedNotScanned(s2, id);
    }
    if id in Resolve(s2).items && id !in Resolve(s1).items {
      ResolveIsLatest(s2, id);
      NotResolvedNotScanned(s1, id);
    }
    if id in Resolve(s1).items {
      ResolveIsLatest(s1, id);
      ResolveIsLatest(s2, id);
      var w1, w2 := Resolve(s1).items[id], Resolve(s2).items[id];
      if w1.version != w2.version {
        AboveAsymmetric(w1.version, w2.version);
      }
    }
  }

  /**
    Ties between a stored record and a candidate with the very same version: the
    candidate replaces the stored record exactly when the version has a suffix.
   */
  lemma TieBreak(m: Dict<string, Addon>, a: Addon)
    requires m.Valid() && a.id in m.items && a.version == m.items[a.id].version
    ensures Offer(m, a).items[a.id] == if a.version.other.Some? then a else m.items[a.id]
  {
    GtSelf(a.version);
  }

  /**
    Versions without a suffix that render alike are the same version, so the first
    record seen for them is the one kept.
   */
  lemma EqualVersionsKeepFirst(m: Dict<string, Addon>, a: Addon)
    requires m.Valid() && a.id in m.items
    requires WellFormed(a.version) && WellFormed(m.items[a.id].version)
    requires a.version.other.None? && m.items[a.id].version.other.None?
    requires Eq(a.version, m.items[a.id].version)
    ensures Offer(m, a) == m
  {
    var b := m.items[a.id].version;
    ParseStr(a.version);
    ParseStr(b);
    TieBreak(m, a);
  }

  /**
    The scan loop of `get_addons_not_in_repo`: each loaded candidate is inserted when its
    id is new and replaces the stored record only when its version is `>` the stored one.
   */
  method KeepLatest(found: seq<Option<Addon>>) returns (m: Dict<string, Addon>)
    ensures m == Resolve(Loaded(found))
  {
    m := Empty();
    ghost var scanned: seq<Addon> := [];
    for i := 0 to |found|
      invariant scanned == Loaded(found[..i])
      invariant m == Resolve(scanned)
    {
      LoadedPrefix(found, i);
      match found[i] {
        case None =>
        case Some(a) =>
          ResolveSnoc(scanned, a);
          if a.id in m.items {
            if Gt(a.version, m.items[a.id].version) {
              m := m.Put(a.id, a);
            }
          } else {
            m := m.Put(a.id, a);
          }
          scanned := scanned + [a];
      }
    }
    assert found[..|found|] == found;
  }

  // ---------------------------------------------------------------------------
  // The manager, with its memo of latest versions
  // ---------------------------------------------------------------------------

  class AddonManager {
    const addonsDir: string
    const repoDir: string

    /** The latest version of each addon id found in `addonsDir`, once a scan has found any. */
    var latest: Dict<string, Addon>

    ghost predicate Valid()
      reads this
    {
      latest.Valid()
    }

    constructor (addonsDir: string, repoDir: string)
      ensures Valid()
      ensures this.addonsDir == addonsDir && this.repoDir == repoDir
      ensures latest == Empty()
    {
      this.addonsDir := addonsDir;
      this.repoDir := repoDir;
      latest := Empty();
    }

    /**
      `get_addons_not_in_repo`: while the memo is empty, scan `addonsDir` and keep the
      latest version of each id; then return the memo's records in id order.
     */
    method GetAddonsNotInRepo(fs: FileSystem) returns (r: Result<seq<Addon>, ScanError>)
      requires Valid()
      modifies this`latest
      ensures Valid()
      ensures old(latest.keys) != [] ==> latest == old(latest) && r == Ok(latest.Values())
      ensures old(latest.keys) == [] && !fs.List(addonsDir, Fresh).isDir
              ==> latest == old(latest) && r == Err(NotADirectory(addonsDir))
      ensures old(latest.keys) == [] && fs.List(addonsDir, Fresh).isDir
              ==> latest == Resolve(Loaded(fs.List(addonsDir, Fresh).found)) && r == Ok(latest.Values())
    {
      if latest.keys == [] {
        var listing := fs.List(addonsDir, Fresh);
        if !listing.isDir {
          return Err(NotADirectory(addonsDir));
        }
        var m := KeepLatest(listing.found);
        latest := m;
      }
      r := Ok(latest.Values());
    }

    /** `get_addons_in_repo`: the addons found in `repoDir`. */
    function GetAddonsInRepo(fs: FileSystem): (r: Result<seq<Addon>, ScanError>)
      ensures r.Err? <==> !fs.List(repoDir, InRepo).isDir
      ensures r.Ok? ==> forall a :: a in r.value <==> Some(a) in fs.List(repoDir, InRepo).found
    {
      Glob(repoDir, fs.List(repoDir, InRepo))
    }

    /**
      `get_all_addons`: the latest new addons first, then the addons already in the
      repository. The new-addon scan runs first, so its error takes precedence.
     */
    method GetAllAddons(fs: FileSystem) returns (r: Result<seq<Addon>, ScanError>)
      requires Valid()
      modifies this`latest
      ensures Valid()
      ensures old(latest.keys) != [] ==> latest == old(latest)
      ensures old(latest.keys) == [] && fs.List(addonsDir, Fresh).isDir ==> latest == Resolve(Loaded(fs.List(addonsDir, Fresh).found))
      ensures old(latest.keys) == [] && !fs.List(addonsDir, Fresh).isDir
              ==> latest == old(latest) && r == Err(NotADirectory(addonsDir))
      ensures old(latest.keys) != [] || fs.List(addonsDir, Fresh).isDir
              ==> r == if fs.List(repoDir, InRepo).isDir then Ok(latest.Values() + Loaded(fs.List(repoDir, InRepo).found))
                       else Err(NotADirectory(repoDir))
    {
      var newAddons := GetAddonsNotInRepo(fs);
      if newAddons.Err? {
        return Err(newAddons.error);
      }
      var inRepo := GetAddonsInRepo(fs);
      if inRepo.Err? {
        return Err(inRepo.error);
      }
      r := Ok(newAddons.value + inRepo.value);
    }
  }
}
