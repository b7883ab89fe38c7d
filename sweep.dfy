/**
  The retention sweep of the log cleaner: walk a directory tree, decide for
  every file whether it is too old or too large, try to remove the ones that
  are, and collect the paths that were actually removed.

  The file system is an input: the directory listings the walk produces, in
  the order it produces them, where every file carries the metadata `stat`
  reports for it and the outcome the file system gives when it is removed.
 */
module Sweep {

  /** Divisor of the age conversion: seconds in a day. */
  const SecondsPerDay: int := 60 * 60 * 24

  /** Divisor of the size conversion: bytes in a megabyte. */
  const BytesPerMb: int := 1024 * 1024

  /** The two thresholds of one sweep. */
  datatype Policy = Policy(maxAgeDays: int, maxSizeMb: int)

  /** What `stat` reports of a file: modification time in seconds and size in bytes. */
  datatype FileStat = FileStat(mtime: real, size: nat)

  /** What the file system does when the sweep asks it to remove a file. */
  datatype Removal = Removed | Raised(cause: string)

  /** One name in a directory listing, with its metadata and its removal outcome. */
  datatype FileEntry = FileEntry(name: string, stat: FileStat, onRemove: Removal)

  /** One step of the directory walk: a directory and the files directly in it. */
  datatype DirListing = DirListing(root: string, files: seq<FileEntry>)

  /** A visited file, named by its full path. */
  datatype FileRecord = FileRecord(path: string, stat: FileStat, onRemove: Removal)

  /**
    POSIX path joining of a directory and a name: an absolute name replaces
    the directory, otherwise one '/' separates them unless the directory is
    empty or already ends in '/'.
   */
  function Join(root: string, name: string): (path: string)
    ensures |path| >= |name| && path[|path| - |name|..] == name
    ensures (name == [] || name[0] != '/') ==>
              |path| >= |root| && path[..|root|] == root && path[|root|..] in {name, "/" + name}
    ensures name != [] && name[0] == '/' ==> path == name
    ensures (name == [] || name[0] != '/') ==>
              (path[|root|..] == name <==> root == [] || root[|root| - 1] == '/')
  {
    if name != [] && name[0] == '/' then name
    else if root == [] || root[|root| - 1] == '/' then
      assert (root + name)[|root|..] == name;
      root + name
    else
      assert (root + "/" + name)[|root|..] == "/" + name;
      root + "/" + name
  }

  /** The age of a file in days, measured at time `now`. */
  function AgeDays(now: real, st: FileStat): (days: real)
    ensures days * (SecondsPerDay as real) == now - st.mtime
  {
    (now - st.mtime) / (SecondsPerDay as real)
  }

  /** The size of a file in megabytes. */
  function SizeMb(st: FileStat): (mb: real)
    ensures mb >= 0.0 && mb * (BytesPerMb as real) == st.size as real
  {
    (st.size as real) / (BytesPerMb as real)
  }

  /**
    The retention test: a file qualifies for removal when its age exceeds the
    age threshold or its size exceeds the size threshold. Either one alone is
    enough, and the test is the same as comparing seconds and bytes against
    the scaled thresholds.
   */
  predicate Qualifies(st: FileStat, now: real, policy: Policy)
    ensures Qualifies(st, now, policy) <==>
              now - st.mtime > (policy.maxAgeDays * SecondsPerDay) as real
              || st.size > policy.maxSizeMb * BytesPerMb
  {
    AgeDays(now, st) > policy.maxAgeDays as real || SizeMb(st) > policy.maxSizeMb as real
  }

  /** A file the sweep removes: it qualifies and its removal succeeds. */
  predicate Deletes(f: FileRecord, now: real, policy: Policy)
  {
    Qualifies(f.stat, now, policy) && f.onRemove == Removed
  }

  /** The record of a file `name` found in directory `root`. */
  function Visit(root: string, e: FileEntry): FileRecord
  {
    FileRecord(Join(root, e.name), e.stat, e.onRemove)
  }

  /** The files of one directory listing, in listing order. */
  function VisitAll(root: string, entries: seq<FileEntry>): (r: seq<FileRecord>)
    ensures |r| == |entries|
    ensures forall i :: 0 <= i < |entries| ==> r[i] == Visit(root, entries[i])
  {
    seq(|entries|, i requires 0 <= i < |entries| => Visit(root, entries[i]))
  }

  /** Every file of the walk, in the order the walk visits them. */
  function Walk(listings: seq<DirListing>): (r: seq<FileRecord>)
    ensures forall f :: f in r <==>
              exists d, j :: 0 <= d < |listings| && 0 <= j < |listings[d].files|
                             && f == Visit(listings[d].root, listings[d].files[j])
  {
    if listings == [] then []
    else VisitAll(listings[0].root, listings[0].files) + Walk(listings[1..])
  }

  /** The full paths of a sequence of visited files. */
  function Paths(files: seq<FileRecord>): (r: seq<string>)
    ensures |r| == |files|
    ensures forall i :: 0 <= i < |files| ==> r[i] == files[i].path
  {
    seq(|files|, i requires 0 <= i < |files| => files[i].path)
  }

  /** The paths the sweep asks the file system to remove, in order. */
  function RemovalCalls(files: seq<FileRecord>, now: real, policy: Policy): seq<string>
  {
    if files == [] then []
    else (if Qualifies(files[0].stat, now, policy) then [files[0].path] else [])
         + RemovalCalls(files[1..], now, policy)
  }

  /** The paths the sweep reports as deleted, in order. */
  function DeletedFiles(files: seq<FileRecord>, now: real, policy: Policy): seq<string>
  {
    if files == [] then []
    else (if Deletes(files[0], now, policy) then [files[0].path] else [])
         + DeletedFiles(files[1..], now, policy)
  }

  /**
    The paths whose removal the sweep requests and the file system refuses,
    in order; the sweep reports an error for each and carries on.
   */
  function FailedRemovals(files: seq<FileRecord>, now: real, policy: Policy): seq<string>
  {
    if files == [] then []
    else (if Qualifies(files[0].stat, now, policy) && files[0].onRemove.Raised? then [files[0].path] else [])
         + FailedRemovals(files[1..], now, policy)
  }

  /** The files still in place after the sweep, in order. */
  function Survivors(files: seq<FileRecord>, now: real, policy: Policy): seq<FileRecord>
  {
    if files == [] then []
    else (if Deletes(files[0], now, policy) then [] else [files[0]])
         + Survivors(files[1..], now, policy)
  }

  /** No two visited files share a path, as holds of any directory walk. */
  ghost predicate UniquePaths(files: seq<FileRecord>)
  {
    Distinct(Paths(files))
  }

  /** No element occurs twice. */
  ghost predicate Distinct(s: seq<string>)
  {
    forall i, j :: 0 <= i < j < |s| ==> s[i] != s[j]
  }

  /** `xs` is `ys` with some elements dropped, the rest kept in their order. */
  ghost predicate IsSubsequence<T>(xs: seq<T>, ys: seq<T>)
    decreases |ys|
  {
    xs == [] ||
    (ys != [] &&
     ((xs[0] == ys[0] && IsSubsequence(xs[1..], ys[1..])) || IsSubsequence(xs, ys[1..])))
  }

  /**
    The sweep. The outer loop runs over the directory listings of the walk,
    the inner loop over the files of one listing. A qualifying file is handed
    to the file system for removal; its path is recorded as deleted only when
    the removal succeeds, and a failed removal is passed over without
    stopping the sweep. Returns the deleted paths and, as the sweep's effect
    on the file system, the paths whose removal it requested.
   */
  method CleanLogs(listings: seq<DirListing>, now: real, policy: Policy)
    returns (deleted: seq<string>, removeCalls: seq<string>)
    ensures deleted == DeletedFiles(Walk(listings), now, policy)
    ensures removeCalls == RemovalCalls(Walk(listings), now, policy)
  {
    deleted, removeCalls := [], [];
    var d := 0;
    while d < |listings|
      invariant 0 <= d <= |listings|
      invariant deleted == DeletedFiles(Walk(listings[..d]), now, policy)
      invariant removeCalls == RemovalCalls(Walk(listings[..d]), now, policy)
    {
      var root, entries := listings[d].root, listings[d].files;
      ghost var done := Walk(listings[..d]);
      var k := 0;
      assert done + VisitAll(root, entries[..0]) == done;
      while k < |entries|
        invariant 0 <= k <= |entries|
        invariant deleted == DeletedFiles(done + VisitAll(root, entries[..k]), now, policy)
        invariant removeCalls == RemovalCalls(done + VisitAll(root, entries[..k]), now, policy)
      {
        var path := Join(root, entries[k].name);
        var st := entries[k].stat;
        VisitStep(done, root, entries, k, now, policy);
        if Qualifies(st, now, policy) {
          removeCalls := removeCalls + [path];
          match entries[k].onRemove
          case Removed =>
            deleted := deleted + [path];
          case Raised(_) =>
        }
        k := k + 1;
      }
      WalkStep(listings, d);
      d := d + 1;
    }
    assert listings[..|listings|] == listings;
  }

  /** One more file of a listing extends the sweep by that file's handling alone. */
  lemma VisitStep(done: seq<FileRecord>, root: string, entries: seq<FileEntry>, k: nat, now: real, policy: Policy)
    requires k < |entries|
    ensures var f := Visit(root, entries[k]);
      && RemovalCalls(done + VisitAll(root, entries[..k + 1]), now, policy)
         == RemovalCalls(done + VisitAll(root, entries[..k]), now, policy)
            + (if Qualifies(f.stat, now, policy) then [f.path] else [])
      && DeletedFiles(done + VisitAll(root, entries[..k + 1]), now, policy)
         == DeletedFiles(done + VisitAll(root, entries[..k]), now, policy)
            + (if Deletes(f, now, policy) then [f.path] else [])
  {
    var f := Visit(root, entries[k]);
    var before := done + VisitAll(root, entries[..k]);
    assert VisitAll(root, entries[..k + 1]) == VisitAll(root, entries[..k]) + [f];
    assert done + VisitAll(root, entries[..k + 1]) == before + [f];
    SweepComposes(before, [f], now, policy);
    SweepOne(f, now, policy);
  }

  /** The sweep of a single file. */
  lemma SweepOne(f: FileRecord, now: real, policy: Policy)
    ensures RemovalCalls([f], now, policy) == if Qualifies(f.stat, now, policy) then [f.path] else []
    ensures DeletedFiles([f], now, policy) == if Deletes(f, now, policy) then [f.path] else []
  {
  }

  /** One more listing extends the walk by that listing's files. */
  lemma WalkStep(listings: seq<DirListing>, d: nat)
    requires d < |listings|
    ensures Walk(listings[..d + 1])
            == Walk(listings[..d]) + VisitAll(listings[d].root, listings[d].files[..|listings[d].files|])
  {
    assert listings[d].files[..|listings[d].files|] == listings[d].files;
    assert listings[..d + 1] == listings[..d] + [listings[d]];
    WalkAppend(listings[..d], [listings[d]]);
    assert [listings[d]][1..] == [];
  }

  /** The walk of two runs of listings is the walk of the first, then of the second. */
  lemma {:induction false} WalkAppend(a: seq<DirListing>, b: seq<DirListing>)
    ensures Walk(a + b) == Walk(a) + Walk(b)
  {
    if a == [] {
      assert a + b == b;
    } else {
      assert (a + b)[1..] == a[1..] + b;
      WalkAppend(a[1..], b);
    }
  }

  /**
    Sweeping `a + b` is sweeping `a` and then sweeping `b`: whatever happened
    to the files of `a`, failed removals included, every file of `b` is still
    evaluated and handled exactly as on its own.
   */
  lemma {:induction false} SweepComposes(a: seq<FileRecord>, b: seq<FileRecord>, now: real, policy: Policy)
    ensures RemovalCalls(a + b, now, policy) == RemovalCalls(a, now, policy) + RemovalCalls(b, now, policy)
    ensures DeletedFiles(a + b, now, policy) == DeletedFiles(a, now, policy) + DeletedFiles(b, now, policy)
    ensures Survivors(a + b, now, policy) == Survivors(a, now, policy) + Survivors(b, now, policy)
  {
    if a == [] {
      assert a + b == b;
    } else {
      assert (a + b)[1..] == a[1..] + b;
      SweepComposes(a[1..], b, now, policy);
    }
  }

  /**
    A path is reported as deleted exactly when some visited file with that
    path qualifies and its removal succeeds; a removal is requested for a path
    exactly when some visited file with that path qualifies.
   */
  lemma {:induction false} Membership(files: seq<FileRecord>, now: real, policy: Policy, p: string)
    ensures p in DeletedFiles(files, now, policy) <==>
              exists i :: 0 <= i < |files| && files[i].path == p && Deletes(files[i], now, policy)
    ensures p in RemovalCalls(files, now, policy) <==>
              exists i :: 0 <= i < |files| && files[i].path == p && Qualifies(files[i].stat, now, policy)
  {
    if files != [] {
      Membership(files[1..], now, policy, p);
      forall i | 1 <= i < |files|
        ensures files[i] == files[1..][i - 1]
      {
      }
      if (exists i :: 1 <= i < |files| && files[i].path == p && Deletes(files[i], now, policy)) {
        var i :| 1 <= i < |files| && files[i].path == p && Deletes(files[i], now, policy);
        assert files[1..][i - 1] == files[i];
      }
      if (exists i :: 1 <= i < |files| && files[i].path == p && Qualifies(files[i].stat, now, policy)) {
        var i :| 1 <= i < |files| && files[i].path == p && Qualifies(files[i].stat, now, policy);
        assert files[1..][i - 1] == files[i];
      }
    }
  }

  /**
    The disposition of every visited file, given that paths are unique:
    its removal is requested if and only if it qualifies, and it is reported
    as deleted if and only if it qualifies and its removal succeeded. In
    particular a file meeting neither threshold is never touched, and a file
    whose removal failed is never reported.
   */
  lemma Disposition(files: seq<FileRecord>, now: real, policy: Policy, i: int)
    requires UniquePaths(files)
    requires 0 <= i < |files|
    ensures files[i].path in RemovalCalls(files, now, policy) <==> Qualifies(files[i].stat, now, policy)
    ensures files[i].path in DeletedFiles(files, now, policy) <==>
              Qualifies(files[i].stat, now, policy) && files[i].onRemove == Removed
  {
    Membership(files, now, policy, files[i].path);
    forall j | 0 <= j < |files| && j != i
      ensures files[j].path != files[i].path
    {
      assert Paths(files)[i] == files[i].path && Paths(files)[j] == files[j].path;
    }
  }

  /**
    Order: the deleted paths are a subsequence of the requested removals,
    which are a subsequence of the visited paths in traversal order.
   */
  lemma {:induction false} InTraversalOrder(files: seq<FileRecord>, now: real, policy: Policy)
    ensures IsSubsequence(DeletedFiles(files, now, policy), RemovalCalls(files, now, policy))
    ensures IsSubsequence(RemovalCalls(files, now, policy), Paths(files))
    ensures IsSubsequence(DeletedFiles(files, now, policy), Paths(files))
  {
    if files != [] {
      InTraversalOrder(files[1..], now, policy);
      var rest := files[1..];
      assert Paths(files) == [files[0].path] + Paths(rest);
      var calls := RemovalCalls(files, now, policy);
      var dels := DeletedFiles(files, now, policy);
      if Qualifies(files[0].stat, now, policy) {
        assert calls[1..] == RemovalCalls(rest, now, policy);
        if files[0].onRemove == Removed {
          assert dels[1..] == DeletedFiles(rest, now, policy);
        } else {
          assert dels == DeletedFiles(rest, now, policy);
          assert calls[1..] == RemovalCalls(rest, now, policy);
        }
      } else {
        assert calls == RemovalCalls(rest, now, policy);
        assert dels == DeletedFiles(rest, now, policy);
      }
    }
  }

  /** With unique paths, no path is requested or reported twice. */
  lemma {:induction false} NoDuplicates(files: seq<FileRecord>, now: real, policy: Policy)
    requires UniquePaths(files)
    ensures Distinct(RemovalCalls(files, now, policy))
    ensures Distinct(DeletedFiles(files, now, policy))
  {
    if files != [] {
      var rest := files[1..];
      assert UniquePaths(rest) by {
        forall i, j | 0 <= i < j < |rest| ensures Paths(rest)[i] != Paths(rest)[j] {
          assert Paths(rest)[i] == Paths(files)[i + 1] && Paths(rest)[j] == Paths(files)[j + 1];
        }
      }
      NoDuplicates(rest, now, policy);
      var p := files[0].path;
      Membership(rest, now, policy, p);
      forall i | 0 <= i < |rest| ensures rest[i].path != p {
        assert Paths(files)[0] == p && Paths(files)[i + 1] == rest[i].path;
      }
      PrependDistinct(p, RemovalCalls(rest, now, policy));
      PrependDistinct(p, DeletedFiles(rest, now, policy));
    }
  }

  lemma PrependDistinct(p: string, s: seq<string>)
    requires Distinct(s) && p !in s
    ensures Distinct([p] + s)
  {
  }

  /**
    The files are split between the deleted and the survivors: each file is
    one or the other, the survivors are exactly the files the sweep does not
    delete, in their order, and no survivor is one the sweep deletes. A survivor
    may still qualify: that is a file whose removal failed. Each file keeps
    its removal outcome, so sweeping the survivors again at the same moment
    retries exactly the failed removals, they fail again, and nothing is
    deleted.
   */
  lemma {:induction false} Idempotent(files: seq<FileRecord>, now: real, policy: Policy)
    ensures |Survivors(files, now, policy)| + |DeletedFiles(files, now, policy)| == |files|
    ensures forall f :: f in Survivors(files, now, policy) ==> f in files && !Deletes(f, now, policy)
    ensures forall f :: f in files && !Deletes(f, now, policy) ==> f in Survivors(files, now, policy)
    ensures IsSubsequence(Survivors(files, now, policy), files)
    ensures RemovalCalls(Survivors(files, now, policy), now, policy) == FailedRemovals(files, now, policy)
    ensures DeletedFiles(Survivors(files, now, policy), now, policy) == []
  {
    if files != [] {
      var rest := files[1..];
      Idempotent(rest, now, policy);
      var head := if Deletes(files[0], now, policy) then [] else [files[0]];
      SweepComposes(head, Survivors(rest, now, policy), now, policy);
      assert DeletedFiles(head, now, policy) == [] by {
        if head != [] {
          assert head[1..] == [];
        }
      }
      assert RemovalCalls(head, now, policy)
             == if Qualifies(files[0].stat, now, policy) && files[0].onRemove.Raised? then [files[0].path] else [] by {
        if head != [] {
          assert head[1..] == [];
        }
      }
      forall f | f in Survivors(files, now, policy)
        ensures f in files && !Deletes(f, now, policy)
      {
        if f !in head {
          assert f in Survivors(rest, now, policy);
          assert f in rest;
        }
      }
      forall f | f in files && !Deletes(f, now, policy)
        ensures f in Survivors(files, now, policy)
      {
        if f != files[0] {
          assert f in rest;
        }
      }
      var survivors := Survivors(files, now, policy);
      if head != [] {
        assert survivors[0] == files[0] && survivors[1..] == Survivors(rest, now, policy);
      } else {
        assert survivors == Survivors(rest, now, policy);
      }
    }
  }
}
