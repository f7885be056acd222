/**
 * ErrorHandler.handleWithRetry: run an operation until it completes, at most
 * maxRetries times, waiting between attempts. The operation's outcome on the
 * i-th run and whether the i-th wait is interrupted are given as functions.
 */
module ErrorHandler {

  /**
   * Returns whether some run completed, and how many runs were made. Every
   * run before the last one failed and was followed by an uninterrupted wait.
   */
  method HandleWithRetry(succeeds: nat -> bool, interrupted: nat -> bool, maxRetries: int) returns (ok: bool, runs: nat)
    ensures maxRetries <= 0 ==> !ok && runs == 0
    ensures maxRetries > 0 ==> 1 <= runs <= maxRetries
    ensures forall i :: 0 <= i < runs - 1 ==> !succeeds(i) && !interrupted(i)
    ensures ok <==> runs > 0 && succeeds(runs - 1)
    ensures !ok && runs > 0 ==> runs == maxRetries || interrupted(runs - 1)
  {
    var attempts := 0;
    runs := 0;
    while attempts < maxRetries
      invariant 0 <= attempts == runs
      invariant maxRetries <= 0 ==> runs == 0
      invariant maxRetries > 0 ==> attempts < maxRetries
      invariant forall i :: 0 <= i < runs ==> !succeeds(i) && !interrupted(i)
    {
      runs := runs + 1;
      if succeeds(attempts) {
        return true, runs;
      }
      attempts := attempts + 1;
      if attempts >= maxRetries {
        return false, runs;
      }
      if interrupted(attempts - 1) {
        return false, runs;
      }
    }
    ok := false;
  }
}
