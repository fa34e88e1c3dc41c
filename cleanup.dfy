/** `cleanup_incomplete_vectorizations`: every website whose vector store id
    names no complete store on disk has the id cleared, one save at a time;
    the first save the database refuses ends the run with a count of 0. */
module Reconciler {
  import opened Common
  import opened Storage

  /** The website points at a store that is missing or incomplete. */
  predicate Dangling(disk: Disk, w: Website)
  {
    w.vectorDbId.Some? && !disk.Complete(w.vectorDbId.value)
  }

  /** The row as the loop leaves it: a dangling id is cleared. */
  function Repair(disk: Disk, w: Website): Website
  {
    if Dangling(disk, w) then w.(vectorDbId := None) else w
  }

  /** The save of a cleared row is refused by the database (`accepts` is the
      table's constraint check). */
  predicate Rejected(disk: Disk, accepts: Website -> bool, w: Website)
  {
    Dangling(disk, w) && !accepts(w.(vectorDbId := None))
  }

  /** Every row repaired, in table order. */
  function Reconcile(disk: Disk, sites: seq<Website>): (r: seq<Website>)
    ensures |r| == |sites|
    decreases |sites|
  {
    if sites == [] then [] else Reconcile(disk, sites[..|sites| - 1]) + [Repair(disk, sites[|sites| - 1])]
  }

  /** The number of dangling rows. */
  function CountDangling(disk: Disk, sites: seq<Website>): nat
    decreases |sites|
  {
    if sites == [] then 0
    else CountDangling(disk, sites[..|sites| - 1]) + (if Dangling(disk, sites[|sites| - 1]) then 1 else 0)
  }

  /** The number of positions at which two tables of the same length differ. */
  function CountChanged(a: seq<Website>, b: seq<Website>): nat
    requires |a| == |b|
    decreases |a|
  {
    if a == [] then 0
    else CountChanged(a[..|a| - 1], b[..|b| - 1]) + (if a[|a| - 1] != b[|b| - 1] then 1 else 0)
  }

  /** The first row whose save is refused, if any. */
  function FirstRejected(disk: Disk, accepts: Website -> bool, sites: seq<Website>): (r: Option<nat>)
    ensures r.None? ==> forall k :: 0 <= k < |sites| ==> !Rejected(disk, accepts, sites[k])
    ensures r.Some? ==> r.value < |sites| && Rejected(disk, accepts, sites[r.value])
    ensures r.Some? ==> forall k :: 0 <= k < r.value ==> !Rejected(disk, accepts, sites[k])
  {
    if sites == [] then None
    else if Rejected(disk, accepts, sites[0]) then Some(0)
    else match FirstRejected(disk, accepts, sites[1..])
      case None => None
      case Some(i) => Some(i + 1)
  }

  /** What the routine returns and the `Website` table it leaves. */
  datatype CleanupResult = CleanupResult(fixedCount: nat, websites: seq<Website>)

  /** The outcome of a run: when every save goes through, all rows are
      repaired and the dangling ones counted; when the save at `i` is
      refused, the rows before `i` stay repaired and 0 is returned. */
  function CleanupOutcome(disk: Disk, accepts: Website -> bool, sites: seq<Website>): CleanupResult
  {
    match FirstRejected(disk, accepts, sites)
    case None => CleanupResult(CountDangling(disk, sites), Reconcile(disk, sites))
    case Some(i) => CleanupResult(0, Reconcile(disk, sites[..i]) + sites[i..])
  }

  /** `cleanup_incomplete_vectorizations()` over the `Website` table `sites`.
      The query's `vector_db_id__isnull=False` filter is the first test in
      the loop; rows it excludes are left as they are. */
  method CleanupIncompleteVectorizations(disk: Disk, accepts: Website -> bool, sites: seq<Website>)
    returns (fixedCount: nat, stored: seq<Website>)
    ensures CleanupResult(fixedCount, stored) == CleanupOutcome(disk, accepts, sites)
  {
    stored := sites;
    var count := 0;
    var i := 0;
    while i < |sites|
      invariant 0 <= i <= |sites|
      invariant forall k :: 0 <= k < i ==> !Rejected(disk, accepts, sites[k])
      invariant stored == Reconcile(disk, sites[..i]) + sites[i..]
      invariant count == CountDangling(disk, sites[..i])
    {
      var w := sites[i];
      if w.vectorDbId.Some? {
        var id := w.vectorDbId.value;
        if !(id in disk.vectorDirs) || !(id in disk.chromaFiles) {
          var cleared := w.(vectorDbId := None);
          if !accepts(cleared) {
            FirstRejectedAt(disk, accepts, sites, i);
            return 0, stored;
          }
          stored := stored[i := cleared];
          count := count + 1;
        }
      }
      ReconcileStep(disk, sites, i);
      i := i + 1;
    }
    assert sites[..|sites|] == sites;
    fixedCount := count;
  }

  /** One more row of the loop: the table and the count grow by that row's
      repair. */
  lemma ReconcileStep(disk: Disk, sites: seq<Website>, i: nat)
    requires i < |sites|
    ensures (Reconcile(disk, sites[..i]) + sites[i..])[i := Repair(disk, sites[i])]
         == Reconcile(disk, sites[..i + 1]) + sites[i + 1..]
    ensures CountDangling(disk, sites[..i + 1])
         == CountDangling(disk, sites[..i]) + (if Dangling(disk, sites[i]) then 1 else 0)
  {
    assert sites[..i + 1][..i] == sites[..i];
  }

  /** The loop stops at the first refused save. */
  lemma {:induction false} FirstRejectedAt(disk: Disk, accepts: Website -> bool, sites: seq<Website>, i: nat)
    requires i < |sites| && Rejected(disk, accepts, sites[i])
    requires forall k :: 0 <= k < i ==> !Rejected(disk, accepts, sites[k])
    ensures FirstRejected(disk, accepts, sites) == Some(i)
  {
    if i > 0 {
      FirstRejectedAt(disk, accepts, sites[1..], i - 1);
    }
  }

  /** Row `k` of the reconciled table is row `k` repaired. */
  lemma {:induction false} ReconcileAt(disk: Disk, sites: seq<Website>, k: nat)
    requires k < |sites|
    ensures Reconcile(disk, sites)[k] == Repair(disk, sites[k])
    decreases |sites|
  {
    var n := |sites| - 1;
    if k < n {
      ReconcileAt(disk, sites[..n], k);
    }
  }

  /** A run in which every save goes through leaves no website pointing at
      an incomplete store; a website whose store is complete, or which has
      no id, is untouched; and a cleared website differs only in its id. */
  lemma CleanupReconciles(disk: Disk, accepts: Website -> bool, sites: seq<Website>)
    requires FirstRejected(disk, accepts, sites).None?
    ensures var out := CleanupOutcome(disk, accepts, sites);
      && |out.websites| == |sites|
      && (forall k :: 0 <= k < |sites| ==> !Dangling(disk, out.websites[k]))
      && (forall k :: 0 <= k < |sites| && !Dangling(disk, sites[k]) ==> out.websites[k] == sites[k])
      && (forall k :: 0 <= k < |sites| && Dangling(disk, sites[k]) ==>
            out.websites[k].vectorDbId.None? && out.websites[k].(vectorDbId := sites[k].vectorDbId) == sites[k])
  {
    forall k | 0 <= k < |sites| ensures Reconcile(disk, sites)[k] == Repair(disk, sites[k]) {
      ReconcileAt(disk, sites, k);
    }
  }

  /** The returned count is the number of websites whose row was changed. */
  lemma {:induction false} CountIsChangedRows(disk: Disk, sites: seq<Website>)
    ensures CountDangling(disk, sites) == CountChanged(sites, Reconcile(disk, sites))
    decreases |sites|
  {
    if sites != [] {
      var n := |sites| - 1;
      CountIsChangedRows(disk, sites[..n]);
      assert Reconcile(disk, sites)[..n] == Reconcile(disk, sites[..n]);
      assert sites[..n] == sites[..|sites| - 1];
    }
  }

  /** The cleanup never does more than clear ids: each row of the table it
      leaves is the row it found or that row with its id cleared. */
  lemma CleanupOnlyClearsIds(disk: Disk, accepts: Website -> bool, sites: seq<Website>)
    ensures var out := CleanupOutcome(disk, accepts, sites).websites;
      && |out| == |sites|
      && forall k :: 0 <= k < |sites| ==> out[k] == sites[k] || out[k] == sites[k].(vectorDbId := None)
  {
    var out := CleanupOutcome(disk, accepts, sites).websites;
    match FirstRejected(disk, accepts, sites)
    case None =>
      forall k | 0 <= k < |sites| ensures out[k] == Repair(disk, sites[k]) {
        ReconcileAt(disk, sites, k);
      }
    case Some(i) =>
      forall k | 0 <= k < i ensures out[k] == Repair(disk, sites[k]) {
        ReconcileAt(disk, sites[..i], k);
      }
  }

  /** A table with no dangling row is its own reconciliation and has none to
      count. */
  lemma {:induction false} NoDanglingFixed(disk: Disk, sites: seq<Website>)
    requires forall k :: 0 <= k < |sites| ==> !Dangling(disk, sites[k])
    ensures Reconcile(disk, sites) == sites && CountDangling(disk, sites) == 0
    decreases |sites|
  {
    if sites != [] {
      var n := |sites| - 1;
      NoDanglingFixed(disk, sites[..n]);
      assert sites[..n] + [sites[n]] == sites;
    }
  }

  /** Running the cleanup again after a run in which every save went through
      fixes nothing and changes nothing. */
  lemma CleanupIdempotent(disk: Disk, accepts: Website -> bool, sites: seq<Website>)
    requires FirstRejected(disk, accepts, sites).None?
    ensures var once := CleanupOutcome(disk, accepts, sites).websites;
      CleanupOutcome(disk, accepts, once) == CleanupResult(0, once)
  {
    CleanupReconciles(disk, accepts, sites);
    var once := Reconcile(disk, sites);
    NoDanglingFixed(disk, once);
    forall k | 0 <= k < |once| ensures !Rejected(disk, accepts, once[k]) {
    }
  }

  /** When a save is refused, the rows before it stay cleared in the table
      although the routine reports that nothing was fixed. */
  lemma RefusedSaveReportsZero(disk: Disk, accepts: Website -> bool, sites: seq<Website>)
    requires FirstRejected(disk, accepts, sites).Some?
    ensures var i := FirstRejected(disk, accepts, sites).value;
      var out := CleanupOutcome(disk, accepts, sites);
      && out.fixedCount == 0
      && CountChanged(sites[..i], out.websites[..i]) == CountDangling(disk, sites[..i])
      && out.websites[i..] == sites[i..]
  {
    var i := FirstRejected(disk, accepts, sites).value;
    CountIsChangedRows(disk, sites[..i]);
    var out := CleanupOutcome(disk, accepts, sites);
    assert out.websites[..i] == Reconcile(disk, sites[..i]);
  }

  /** The constraint of the `vector_db_id` column as declared: a
      `CharField` without `null=True`, so NULL is refused. */
  predicate NotNullColumn(w: Website)
  {
    w.vectorDbId.Some?
  }

  /** As declared, the column refuses the cleared id: a run that meets a
      dangling website reports 0 and leaves the whole table as it was. */
  lemma NotNullCleanupFixesNothing(disk: Disk, sites: seq<Website>, i: nat)
    requires i < |sites| && Dangling(disk, sites[i])
    ensures CleanupOutcome(disk, NotNullColumn, sites) == CleanupResult(0, sites)
  {
    var j := FirstRejected(disk, NotNullColumn, sites).value;
    forall k | 0 <= k < j ensures !Dangling(disk, sites[..j][k]) {
      assert sites[..j][k] == sites[k];
      assert !Rejected(disk, NotNullColumn, sites[k]);
    }
    NoDanglingFixed(disk, sites[..j]);
    assert sites[..j] + sites[j..] == sites;
  }

  /** A nullable column (`null=True`), as the routine intends: every save goes
      through, so every dangling website is cleared and counted. */
  lemma NullableCleanupReconcilesAll(disk: Disk, sites: seq<Website>)
    ensures var out := CleanupOutcome(disk, w => true, sites);
      && out == CleanupResult(CountDangling(disk, sites), Reconcile(disk, sites))
      && out.fixedCount == CountChanged(sites, out.websites)
      && forall k :: 0 <= k < |sites| ==> !Dangling(disk, out.websites[k])
  {
    CleanupReconciles(disk, w => true, sites);
    CountIsChangedRows(disk, sites);
  }

  /** With the column as declared, the cleanup leaves every table as it
      found it. */
  lemma NotNullCleanupKeepsTable(disk: Disk, sites: seq<Website>)
    ensures CleanupOutcome(disk, NotNullColumn, sites).websites == sites
  {
    if i :| 0 <= i < |sites| && Dangling(disk, sites[i]) {
      NotNullCleanupFixesNothing(disk, sites, i);
    } else {
      NoDanglingFixed(disk, sites);
    }
  }
}
