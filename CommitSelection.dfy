/** Choosing the base commit of the comparison: walking the log from the
    newest commit, the last commit reached before the first one older than
    the `since` instant. */
module CommitSelection {
  import opened Outcomes

  /** A commit of the log: its object id and its commit time, in seconds
      since the epoch. */
  datatype Commit = Commit(id: string, seconds: int)

  /** Why no base commit is chosen: the `since` text does not parse as a
      date, or not even the newest commit is at or after it. */
  datatype SelectError = UnparsableSince | NoCommitSince

  /** The loop goes on past `c`: `since` is not after `c`'s commit time,
      compared in milliseconds. */
  predicate NotBefore(c: Commit, sinceMillis: int) {
    sinceMillis <= c.seconds * 1000
  }

  /** How many commits, from the newest, the loop passes before it breaks. */
  function KeptPrefix(log: seq<Commit>, sinceMillis: int): (n: nat)
    ensures n <= |log|
  {
    if log == [] || !NotBefore(log[0], sinceMillis) then 0
    else 1 + KeptPrefix(log[1..], sinceMillis)
  }

  /** The position in the log of the chosen commit. `since` is `None` when
      its text does not parse. */
  function SelectedCommit(log: seq<Commit>, since: Option<int>): (r: Result<nat, SelectError>)
    ensures r.Success? ==> r.value < |log|
  {
    if since.None? then Failure(UnparsableSince)
    else if KeptPrefix(log, since.value) == 0 then Failure(NoCommitSince)
    else Success(KeptPrefix(log, since.value) - 1)
  }

  /** The loop passes exactly the commits of the prefix, all of them not
      before `since`, and stops at the end of the log or at a commit before
      it. */
  lemma {:induction false} KeptPrefixFacts(log: seq<Commit>, sinceMillis: int)
    ensures forall j :: 0 <= j < KeptPrefix(log, sinceMillis) ==> NotBefore(log[j], sinceMillis)
    ensures KeptPrefix(log, sinceMillis) == |log| || !NotBefore(log[KeptPrefix(log, sinceMillis)], sinceMillis)
  {
    if log != [] && NotBefore(log[0], sinceMillis) {
      KeptPrefixFacts(log[1..], sinceMillis);
      forall j | 0 <= j < KeptPrefix(log, sinceMillis)
        ensures NotBefore(log[j], sinceMillis)
      {
        if j > 0 {
          assert log[j] == log[1..][j - 1];
        }
      }
    }
  }

  /** `commitSince`: the log walked from the newest commit, remembering the
      last commit seen until one is older than `since`; the result is that
      commit's object id. */
  method CommitSince(log: seq<Commit>, since: Option<int>) returns (r: Result<string, SelectError>)
    ensures r.Success? <==> SelectedCommit(log, since).Success?
    ensures r.Failure? ==> r.error == SelectedCommit(log, since).error
    ensures r.Success? ==> r.value == log[SelectedCommit(log, since).value].id
  {
    if since.None? {
      return Failure(UnparsableSince);
    }
    var sinceMillis := since.value;
    var found := false;
    var ref := "";
    var i := 0;
    while i < |log|
      invariant 0 <= i <= |log|
      invariant KeptPrefix(log, sinceMillis) == i + KeptPrefix(log[i..], sinceMillis)
      invariant found <==> i > 0
      invariant found ==> ref == log[i - 1].id
    {
      assert log[i..][1..] == log[i + 1..];
      if sinceMillis > log[i].seconds * 1000 {
        break;
      }
      ref := log[i].id;
      found := true;
      i := i + 1;
    }
    if !found {
      return Failure(NoCommitSince);
    }
    return Success(ref);
  }

  /** The chosen commit is a position of the log whose commit, and every
      newer one, is not before `since`, and the next older one, if any, is
      before it; without such a commit the selection fails. */
  lemma SelectionMeaning(log: seq<Commit>, sinceMillis: int)
    ensures SelectedCommit(log, Some(sinceMillis)).Success? <==> |log| > 0 && NotBefore(log[0], sinceMillis)
    ensures SelectedCommit(log, Some(sinceMillis)).Failure? ==> SelectedCommit(log, Some(sinceMillis)).error == NoCommitSince
    ensures SelectedCommit(log, Some(sinceMillis)).Success? ==>
      var j := SelectedCommit(log, Some(sinceMillis)).value;
      && j < |log|
      && (forall k :: 0 <= k <= j ==> NotBefore(log[k], sinceMillis))
      && (j + 1 == |log| || !NotBefore(log[j + 1], sinceMillis))
  {
    KeptPrefixFacts(log, sinceMillis);
  }

  /** The log is newest first. */
  predicate NewestFirst(log: seq<Commit>) {
    forall i, j :: 0 <= i < j < |log| ==> log[j].seconds <= log[i].seconds
  }

  /** When the log is newest first, the chosen commit is the oldest one not
      before `since`: a commit is at or after `since` exactly when it is no
      older than the chosen one. When the selection fails, every commit is
      before `since`. */
  lemma OldestCommitSince(log: seq<Commit>, sinceMillis: int)
    requires NewestFirst(log)
    ensures SelectedCommit(log, Some(sinceMillis)).Success? ==>
      forall k :: 0 <= k < |log| ==> (NotBefore(log[k], sinceMillis) <==> k <= SelectedCommit(log, Some(sinceMillis)).value)
    ensures SelectedCommit(log, Some(sinceMillis)).Failure? ==>
      forall k :: 0 <= k < |log| ==> !NotBefore(log[k], sinceMillis)
  {
    SelectionMeaning(log, sinceMillis);
    var n := KeptPrefix(log, sinceMillis);
    KeptPrefixFacts(log, sinceMillis);
    forall k | n <= k < |log|
      ensures !NotBefore(log[k], sinceMillis)
    {
      assert log[k].seconds <= log[n].seconds;
    }
  }

  /** A newer commit beyond an older one is never reached: one commit before
      `since` hides all commits after it in the log. */
  lemma BreakHidesLaterCommits(log: seq<Commit>, sinceMillis: int, b: nat)
    requires b < |log| && !NotBefore(log[b], sinceMillis)
    ensures SelectedCommit(log, Some(sinceMillis)).Success? ==> SelectedCommit(log, Some(sinceMillis)).value < b
  {
    SelectionMeaning(log, sinceMillis);
  }
}
