/** The signature counter of a passkey over logins that do not overlap. */
module Passkeys {
  import opened Options

  function Max(a: int, b: int): int {
    if a > b then a else b
  }

  /** The rollback check of CompletePasskeyLogin. */
  predicate Passes(stored: int, count: int) {
    !(stored > 0 && count > 0 && count < stored)
  }

  function StoredAfter(stored: int, count: int): int {
    if Passes(stored, count) then Max(stored, count) else stored
  }

  /** The stored counter before login n. */
  function StoredBefore(enrolled: int, counts: seq<int>, n: nat): int
    requires n <= |counts|
  {
    if n == 0 then enrolled else StoredAfter(StoredBefore(enrolled, counts, n - 1), counts[n - 1])
  }

  predicate Passed(enrolled: int, counts: seq<int>, i: nat)
    requires i < |counts|
  {
    Passes(StoredBefore(enrolled, counts, i), counts[i])
  }

  /** `m` is the greatest of the enrolled value and the counts that passed among the first n. */
  predicate IsGreatest(m: int, enrolled: int, counts: seq<int>, n: nat)
    requires n <= |counts|
  {
    && m >= enrolled
    && (forall i :: 0 <= i < n && Passed(enrolled, counts, i) ==> counts[i] <= m)
    && (m == enrolled || exists i :: 0 <= i < n && Passed(enrolled, counts, i) && counts[i] == m)
  }

  /** The stored counter is always the maximum of the enrolled one and every count that passed. */
  lemma {:induction false} StoredIsGreatest(enrolled: int, counts: seq<int>, n: nat)
    requires n <= |counts|
    ensures IsGreatest(StoredBefore(enrolled, counts, n), enrolled, counts, n)
  {
    if n > 0 {
      StoredIsGreatest(enrolled, counts, n - 1);
      if Passed(enrolled, counts, n - 1) && counts[n - 1] > StoredBefore(enrolled, counts, n - 1) {
        assert counts[n - 1] == StoredBefore(enrolled, counts, n);
      }
    }
  }

  /** A positive count passes exactly when it is at least the enrolled value and every count that
      passed before it; a count that is not positive always passes. */
  lemma PassesExactly(enrolled: int, counts: seq<int>, i: nat)
    requires i < |counts|
    ensures Passed(enrolled, counts, i) <==>
      counts[i] <= 0 || (counts[i] >= enrolled && forall j :: 0 <= j < i && Passed(enrolled, counts, j) ==> counts[j] <= counts[i])
  {
    StoredIsGreatest(enrolled, counts, i);
  }

  /** The check is not strict: a positive count that just passed passes again. */
  lemma ReplayPasses(enrolled: int, counts: seq<int>, i: nat)
    requires i + 1 < |counts| && Passed(enrolled, counts, i) && counts[i] > 0 && counts[i + 1] == counts[i]
    ensures Passed(enrolled, counts, i + 1)
    ensures StoredBefore(enrolled, counts, i + 2) == StoredBefore(enrolled, counts, i + 1)
  {
  }

  class Credential {
    var signCount: int

    constructor (enrolled: int)
      ensures signCount == enrolled
    {
      signCount := enrolled;
    }

    /** The part of CompletePasskeyLogin between reading the credential and issuing the session; `written`
        is whether the UPDATE succeeds. */
    method CompleteLogin(count: int, written: bool) returns (r: Result<int>)
      modifies this
      ensures r.Ok? <==> Passes(old(signCount), count) && written
      ensures r.Ok? ==> r.value == signCount
      ensures signCount == if written then StoredAfter(old(signCount), count) else old(signCount)
      ensures signCount >= old(signCount)
    {
      if signCount > 0 && count > 0 && count < signCount {
        return Err("credential counter rollback detected");
      }
      if !written {
        return Err("sql: write failed");
      }
      if count > signCount {
        signCount := count;
      }
      r := Ok(signCount);
    }
  }
}
