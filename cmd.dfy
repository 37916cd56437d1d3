/**
 * pkg/cmd: the per-beneficiary grouping of banking.go and the check that
 * db.go makes of a migrations directory before migrating. The file system
 * calls (os.Stat, os.ReadDir) are not made here: their results are inputs.
 */
module Cmd {
  import opened Wrappers
  import opened Text
  import opened Records
  import opened Grouping

  /** The beneficiary and amount of each transaction, in order. */
  function Payments(ts: seq<Transaction>): (ps: seq<Payment>)
    ensures |ps| == |ts|
  {
    if ts == [] then [] else Payments(ts[..|ts| - 1]) + [Payment(ts[|ts| - 1].beneficiary, ts[|ts| - 1].amount)]
  }

  /**
   * GroupTransactions: a loop over the transactions that adds a positive
   * amount to its beneficiary's entry and subtracts a negative one, a
   * missing entry counting as zero. The result is the grouping Groups of
   * the input, so each beneficiary that occurs maps to its total of
   * absolute amounts and no other key is present.
   */
  method GroupTransactions(transactions: seq<Transaction>) returns (groups: map<string, int>)
    ensures groups == Groups(Payments(transactions))
    ensures groups.Keys == Beneficiaries(Payments(transactions))
    ensures forall b :: b in groups ==> groups[b] == AbsTotal(Payments(transactions), b) >= 0
  {
    groups := map[];
    for i := 0 to |transactions|
      invariant groups == Groups(Payments(transactions[..i]))
    {
      var t := transactions[i];
      PaymentsStep(transactions, i, groups);
      if t.amount < 0 {
        groups := groups[t.beneficiary := Get(groups, t.beneficiary) - t.amount];
      } else {
        groups := groups[t.beneficiary := Get(groups, t.beneficiary) + t.amount];
      }
    }
    assert transactions[..|transactions|] == transactions;
    GroupsMeaning(Payments(transactions));
  }

  /** One pass of the loop: the grouping of one more transaction. */
  lemma PaymentsStep(ts: seq<Transaction>, i: nat, groups: map<string, int>)
    requires i < |ts| && groups == Groups(Payments(ts[..i]))
    ensures Groups(Payments(ts[..i + 1])) ==
      if ts[i].amount < 0 then groups[ts[i].beneficiary := Get(groups, ts[i].beneficiary) - ts[i].amount]
      else groups[ts[i].beneficiary := Get(groups, ts[i].beneficiary) + ts[i].amount]
  {
    assert ts[..i + 1][..i] == ts[..i];
  }

  /** Reordering the transactions does not change the grouping. */
  lemma GroupTransactionsOrder(ts: seq<Transaction>, us: seq<Transaction>)
    requires multiset(ts) == multiset(us)
    ensures Groups(Payments(ts)) == Groups(Payments(us))
  {
    PaymentsPermutation(ts, us);
    GroupsPermutation(Payments(ts), Payments(us));
  }

  lemma {:induction false} PaymentsConcat(a: seq<Transaction>, b: seq<Transaction>)
    ensures Payments(a + b) == Payments(a) + Payments(b)
    decreases |b|
  {
    if b == [] {
      assert a + b == a;
    } else {
      assert (a + b)[..|a + b| - 1] == a + b[..|b| - 1];
      PaymentsConcat(a, b[..|b| - 1]);
    }
  }

  lemma {:induction false} PaymentsPermutation(ts: seq<Transaction>, us: seq<Transaction>)
    requires multiset(ts) == multiset(us)
    ensures multiset(Payments(ts)) == multiset(Payments(us))
    decreases |ts|
  {
    if ts != [] {
      var init, t := ts[..|ts| - 1], ts[|ts| - 1];
      assert ts == init + [t];
      assert t in multiset(us);
      var j :| 0 <= j < |us| && us[j] == t;
      var left, right := us[..j], us[j + 1..];
      assert us == left + [t] + right;
      RemoveOne(init, t, us, j);
      PaymentsPermutation(init, left + right);
      PaymentsConcat(left + [t], right);
      PaymentsConcat(left, [t]);
      PaymentsConcat(left, right);
      assert multiset(Payments(us)) == multiset(Payments(left)) + multiset(Payments([t])) + multiset(Payments(right));
    }
  }

  /** A directory entry as os.ReadDir reports it: its name and whether it is a directory. */
  datatype DirEntry = DirEntry(name: string, isDir: bool)

  /** The suffixes a migration file may carry. */
  predicate MigrationName(name: string)
  {
    HasSuffix(name, ".up.sql") || HasSuffix(name, ".down.sql")
  }

  /** An entry the migrations directory may hold: a file with a migration suffix. */
  predicate Acceptable(e: DirEntry)
  {
    !e.isDir && MigrationName(e.name)
  }

  /** The error for an entry that is not acceptable: a subdirectory first, whatever its name. */
  function EntryError(e: DirEntry): string
  {
    if e.isDir then "migrations directory must not contain subdirectories, found: " + e.name
    else "migration files must have .up.sql or .down.sql suffix, found: " + e.name
  }

  /**
   * The loop over the listing: the error of the first entry that is not
   * acceptable, or none when every entry is (so also for an empty listing).
   */
  function CheckListing(files: seq<DirEntry>): (r: Option<string>)
    ensures r.None? <==> forall i :: 0 <= i < |files| ==> Acceptable(files[i])
    ensures r.Some? ==> exists i :: 0 <= i < |files| && !Acceptable(files[i]) && r.value == EntryError(files[i]) &&
                          forall k :: 0 <= k < i ==> Acceptable(files[k])
  {
    if files == [] then None
    else if !Acceptable(files[0]) then Some(EntryError(files[0]))
    else
      var rest := files[1..];
      var r := CheckListing(rest);
      assert forall i :: 0 <= i < |rest| ==> rest[i] == files[i + 1];
      if r.Some? then
        var j :| 0 <= j < |rest| && !Acceptable(rest[j]) && r.value == EntryError(rest[j]) &&
                 forall k :: 0 <= k < j ==> Acceptable(rest[k]);
        assert forall k :: 0 <= k < j + 1 ==> Acceptable(files[k]) by {
          forall k | 0 < k < j + 1 ensures Acceptable(files[k]) {
            assert files[k] == rest[k - 1];
          }
        }
        r
      else r
  }

  /**
   * validateMigrateOptions: the path must be statted, must be a directory
   * and must be listed; then the listing is checked. stat is the outcome of
   * os.Stat (whether the path is a directory, or the error), listing the
   * outcome of os.ReadDir; None means the options are valid.
   */
  function ValidateMigrateOptions(migrationsPath: string, stat: Result<bool, string>,
                                  listing: Result<seq<DirEntry>, string>): (r: Option<string>)
    ensures stat.Err? ==> r == Some("failed to stat database file: " + stat.error)
    ensures stat == Ok(false) ==> r == Some("migrations path is not a directory: " + migrationsPath)
    ensures stat == Ok(true) && listing.Err? ==> r == Some("error reading migrations directory: " + listing.error)
    ensures stat == Ok(true) && listing.Ok? ==> r == CheckListing(listing.value)
  {
    if stat.Err? then Some("failed to stat database file: " + stat.error)
    else if !stat.value then Some("migrations path is not a directory: " + migrationsPath)
    else if listing.Err? then Some("error reading migrations directory: " + listing.error)
    else CheckListing(listing.value)
  }

  /** A path that is not a directory is rejected before its listing is looked at. */
  lemma NotDirectoryFirst(migrationsPath: string, listing: Result<seq<DirEntry>, string>,
                          other: Result<seq<DirEntry>, string>)
    ensures ValidateMigrateOptions(migrationsPath, Ok(false), listing).Some?
    ensures ValidateMigrateOptions(migrationsPath, Ok(false), listing)
         == ValidateMigrateOptions(migrationsPath, Ok(false), other)
  {
  }

  /** A directory is valid exactly when every entry of its listing is an acceptable file. */
  lemma ValidListing(migrationsPath: string, files: seq<DirEntry>)
    ensures ValidateMigrateOptions(migrationsPath, Ok(true), Ok(files)).None?
        <==> forall i :: 0 <= i < |files| ==> !files[i].isDir && MigrationName(files[i].name)
  {
  }

  /** A subdirectory is rejected as one even when its name carries a migration suffix. */
  lemma SubdirectoryRejected(migrationsPath: string, files: seq<DirEntry>, i: nat)
    requires i < |files| && files[i].isDir
    requires forall k :: 0 <= k < i ==> Acceptable(files[k])
    ensures ValidateMigrateOptions(migrationsPath, Ok(true), Ok(files))
         == Some("migrations directory must not contain subdirectories, found: " + files[i].name)
  {
    FirstOffender(files, i);
  }

  /** The error reported is the one of the first entry that is not acceptable. */
  lemma {:induction false} FirstOffender(files: seq<DirEntry>, i: nat)
    requires i < |files| && !Acceptable(files[i])
    requires forall k :: 0 <= k < i ==> Acceptable(files[k])
    ensures CheckListing(files) == Some(EntryError(files[i]))
  {
    if i > 0 {
      assert forall k :: 0 <= k < i - 1 ==> files[1..][k] == files[k + 1];
      FirstOffender(files[1..], i - 1);
    }
  }
}
