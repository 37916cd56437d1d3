/**
 * main.go, the first command-line version of the tool: the choice of the
 * input file from the -f and --file flags, and its own copy of
 * GroupTransactions over its own transaction struct. Flag parsing itself
 * (flag.String, flag.Parse) is not modelled: the two flag values are
 * inputs, and log.Fatal, which ends the process, is an Err.
 */
module Cli {
  import opened Wrappers
  import opened Grouping

  /** main.go's Transaction, restricted to the two fields GroupTransactions reads. */
  type Transaction = Payment

  const BothFlags := "Error: both -f and --file flags are specified"
  const NoFlag := "Error: no input file specified"

  /**
   * parseCommandLine: exactly one of -f (f) and --file (file) must be
   * non-empty, and its value is the input file.
   */
  function ParseCommandLine(f: string, file: string): (r: Result<string, string>)
    ensures f != "" && file != "" ==> r == Err(BothFlags)
    ensures f == "" && file == "" ==> r == Err(NoFlag)
    ensures r.Ok? <==> (f != "") != (file != "")
    ensures r.Ok? ==> r.value != "" && r.value in {f, file}
  {
    if f != "" && file != "" then Err(BothFlags)
    else if f == "" && file == "" then Err(NoFlag)
    else if f != "" then Ok(f)
    else Ok(file)
  }

  /** Whichever flag is given names the file; the other may be omitted. */
  lemma EitherFlag(name: string)
    requires name != ""
    ensures ParseCommandLine(name, "") == Ok(name)
    ensures ParseCommandLine("", name) == Ok(name)
  {
  }

  /**
   * GroupTransactions of main.go, the same loop as in pkg/cmd: a positive
   * amount is added to its beneficiary's entry and a negative one
   * subtracted, so the result is the grouping Groups of the input.
   */
  method GroupTransactions(transactions: seq<Transaction>) returns (groups: map<string, int>)
    ensures groups == Groups(transactions)
    ensures groups.Keys == Beneficiaries(transactions)
    ensures forall b :: b in groups ==> groups[b] == AbsTotal(transactions, b) >= 0
  {
    groups := map[];
    for i := 0 to |transactions|
      invariant groups == Groups(transactions[..i])
    {
      var t := transactions[i];
      assert transactions[..i + 1][..i] == transactions[..i];
      if t.amount < 0 {
        groups := groups[t.beneficiary := Get(groups, t.beneficiary) - t.amount];
      } else {
        groups := groups[t.beneficiary := Get(groups, t.beneficiary) + t.amount];
      }
    }
    assert transactions[..|transactions|] == transactions;
    GroupsMeaning(transactions);
  }
}
