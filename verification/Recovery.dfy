/** One-time recovery codes: enrolment, and consumption of one code at a time. The key derivation is an
    arbitrary function; where it matters, that an attempted code matches no stored hash of another
    code is stated as a hypothesis. */
module Recovery {
  import opened Options
  import opened GoText

  datatype RecoveryHash = RecoveryHash(salt: string, hash: string)

  type Kdf = (string, string) -> string

  // ---- Specification on the codes themselves ----

  /** The codes that enrolment keeps: trimmed, blanks skipped. */
  function Enrolled(codes: seq<string>): seq<string> {
    if codes == [] then []
    else
      var last := TrimSpace(codes[|codes| - 1]);
      Enrolled(codes[..|codes| - 1]) + (if last == "" then [] else [last])
  }

  /** The least index at which `code` stands, or the length. */
  function IndexOf(codes: seq<string>, code: string): (i: nat)
    ensures i <= |codes| && (i < |codes| ==> codes[i] == code)
    ensures forall j :: 0 <= j < i ==> codes[j] != code
  {
    if codes == [] || codes[0] == code then 0
    else
      var i := IndexOf(codes[1..], code);
      assert forall j :: 1 <= j <= i ==> codes[j] == codes[1..][j - 1] || j == |codes|;
      i + 1
  }

  function RemoveAt<T>(s: seq<T>, i: nat): seq<T>
    requires i < |s|
  {
    s[..i] + s[i + 1..]
  }

  /** A code is accepted when it is one of the remaining ones and not the last of them. */
  predicate Accepts(codes: seq<string>, attempt: string) {
    TrimSpace(attempt) in codes && |codes| > 1
  }

  function CodesAfter(codes: seq<string>, attempt: string): seq<string> {
    if Accepts(codes, attempt) then RemoveAt(codes, IndexOf(codes, TrimSpace(attempt))) else codes
  }

  // ---- The stored hashes ----

  predicate Matches(kdf: Kdf, code: string, item: RecoveryHash) {
    kdf(code, item.salt) == item.hash
  }

  /** The hashes were derived from the codes, position by position. */
  predicate Represents(kdf: Kdf, hashes: seq<RecoveryHash>, codes: seq<string>) {
    && |hashes| == |codes|
    && forall i :: 0 <= i < |codes| ==> codes[i] != "" && Matches(kdf, codes[i], hashes[i])
  }

  /** No stored hash of another code is matched by `code`. */
  predicate Separates(kdf: Kdf, hashes: seq<RecoveryHash>, codes: seq<string>, code: string)
    requires |hashes| == |codes|
  {
    forall i :: 0 <= i < |codes| && Matches(kdf, code, hashes[i]) ==> codes[i] == code
  }

  function MatchIndex(kdf: Kdf, hashes: seq<RecoveryHash>, code: string): (i: nat)
    ensures i <= |hashes| && (i < |hashes| ==> Matches(kdf, code, hashes[i]))
    ensures forall j :: 0 <= j < i ==> !Matches(kdf, code, hashes[j])
  {
    if hashes == [] || Matches(kdf, code, hashes[0]) then 0
    else
      var i := MatchIndex(kdf, hashes[1..], code);
      assert forall j :: 1 <= j <= i ==> hashes[j] == hashes[1..][j - 1] || j == |hashes|;
      i + 1
  }

  /** consumeRecoveryCode on the stored list: the list to store, or why the attempt fails. */
  function Consume(kdf: Kdf, hashes: seq<RecoveryHash>, attempt: string): Result<seq<RecoveryHash>> {
    var code := TrimSpace(attempt);
    if code == "" then Err("recovery code is required")
    else
      var i := MatchIndex(kdf, hashes, code);
      if i == |hashes| then Err("invalid recovery code")
      else if |hashes| == 1 then Err("no recovery codes remain after using this code; generate a fresh set before proceeding")
      else Ok(RemoveAt(hashes, i))
  }

  lemma MatchIndexIsIndexOf(kdf: Kdf, hashes: seq<RecoveryHash>, codes: seq<string>, code: string)
    requires Represents(kdf, hashes, codes) && Separates(kdf, hashes, codes, code)
    ensures MatchIndex(kdf, hashes, code) == IndexOf(codes, code)
  {
  }

  /** One attempt on the hashes does what the specification does on the codes. */
  lemma ConsumeRefines(kdf: Kdf, hashes: seq<RecoveryHash>, codes: seq<string>, attempt: string)
    requires Represents(kdf, hashes, codes) && Separates(kdf, hashes, codes, TrimSpace(attempt))
    ensures Consume(kdf, hashes, attempt).Ok? <==> Accepts(codes, attempt)
    ensures Consume(kdf, hashes, attempt).Ok? ==> Represents(kdf, Consume(kdf, hashes, attempt).value, CodesAfter(codes, attempt))
  {
    var code := TrimSpace(attempt);
    if code != "" {
      MatchIndexIsIndexOf(kdf, hashes, codes, code);
      assert code in codes <==> IndexOf(codes, code) < |codes|;
    }
  }

  lemma RemoveConserves(codes: seq<string>, i: nat)
    requires i < |codes|
    ensures multiset(codes) == multiset(RemoveAt(codes, i)) + multiset{codes[i]}
  {
    assert codes == codes[..i] + [codes[i]] + codes[i + 1..];
  }

  // ---- Whole runs ----

  /** The stored list before attempt n. */
  function HashesBefore(kdf: Kdf, hashes: seq<RecoveryHash>, attempts: seq<string>, n: nat): seq<RecoveryHash>
    requires n <= |attempts|
  {
    if n == 0 then hashes
    else
      var before := HashesBefore(kdf, hashes, attempts, n - 1);
      var r := Consume(kdf, before, attempts[n - 1]);
      if r.Ok? then r.value else before
  }

  /** The codes with which the first n attempts succeeded. */
  function ConsumedBy(kdf: Kdf, hashes: seq<RecoveryHash>, attempts: seq<string>, n: nat): seq<string>
    requires n <= |attempts|
  {
    if n == 0 then []
    else
      ConsumedBy(kdf, hashes, attempts, n - 1) +
      (if Consume(kdf, HashesBefore(kdf, hashes, attempts, n - 1), attempts[n - 1]).Ok? then [TrimSpace(attempts[n - 1])] else [])
  }

  function CodesBefore(codes: seq<string>, attempts: seq<string>, n: nat): seq<string>
    requires n <= |attempts|
  {
    if n == 0 then codes else CodesAfter(CodesBefore(codes, attempts, n - 1), attempts[n - 1])
  }

  /** No attempt of the run matches the hash of another enrolled code. */
  predicate AllSeparate(kdf: Kdf, hashes: seq<RecoveryHash>, codes: seq<string>, attempts: seq<string>)
    requires |hashes| == |codes|
  {
    forall k :: 0 <= k < |attempts| ==> Separates(kdf, hashes, codes, TrimSpace(attempts[k]))
  }

  lemma AllSeparateAfter(kdf: Kdf, hashes: seq<RecoveryHash>, codes: seq<string>, i: nat, attempts: seq<string>)
    requires |hashes| == |codes| && i < |codes| && AllSeparate(kdf, hashes, codes, attempts)
    ensures AllSeparate(kdf, RemoveAt(hashes, i), RemoveAt(codes, i), attempts)
  {
  }

  /** The stored hashes stand for `left`, and the enrolled codes are `left` and `used` together. */
  predicate Conserved(kdf: Kdf, hashes: seq<RecoveryHash>, left: seq<string>, used: seq<string>, codes: seq<string>, attempts: seq<string>) {
    && Represents(kdf, hashes, left) && AllSeparate(kdf, hashes, left, attempts)
    && multiset(codes) == multiset(left) + multiset(used)
    && (codes != [] ==> left != [])
  }

  lemma ConservedAtFirst(kdf: Kdf, hashes: seq<RecoveryHash>, codes: seq<string>, attempts: seq<string>)
    requires Represents(kdf, hashes, codes) && AllSeparate(kdf, hashes, codes, attempts)
    ensures Conserved(kdf, hashes, codes, [], codes, attempts)
  {
  }

  lemma AttemptConserves(kdf: Kdf, hashes: seq<RecoveryHash>, left: seq<string>, used: seq<string>, codes: seq<string>, attempts: seq<string>, k: nat)
    requires k < |attempts| && Conserved(kdf, hashes, left, used, codes, attempts)
    ensures var r := Consume(kdf, hashes, attempts[k]);
      && (r.Ok? <==> Accepts(left, attempts[k]))
      && Conserved(kdf, if r.Ok? then r.value else hashes, CodesAfter(left, attempts[k]),
                   used + (if r.Ok? then [TrimSpace(attempts[k])] else []), codes, attempts)
  {
    ConsumeRefines(kdf, hashes, left, attempts[k]);
    if Accepts(left, attempts[k]) {
      var code := TrimSpace(attempts[k]);
      var i := IndexOf(left, code);
      MatchIndexIsIndexOf(kdf, hashes, left, code);
      RemoveConserves(left, i);
      AllSeparateAfter(kdf, hashes, left, i, attempts);
      assert multiset(used + [code]) == multiset(used) + multiset{code};
    } else {
      assert used + [] == used;
    }
  }

  predicate ConservedAt(kdf: Kdf, hashes: seq<RecoveryHash>, codes: seq<string>, attempts: seq<string>, n: nat)
    requires n <= |attempts|
  {
    Conserved(kdf, HashesBefore(kdf, hashes, attempts, n), CodesBefore(codes, attempts, n),
              ConsumedBy(kdf, hashes, attempts, n), codes, attempts)
  }

  lemma ConservedNext(kdf: Kdf, hashes: seq<RecoveryHash>, codes: seq<string>, attempts: seq<string>, n: nat)
    requires 0 < n <= |attempts| && ConservedAt(kdf, hashes, codes, attempts, n - 1)
    ensures ConservedAt(kdf, hashes, codes, attempts, n)
  {
    hide Conserved, Consume, CodesAfter, TrimSpace;
    AttemptConserves(kdf, HashesBefore(kdf, hashes, attempts, n - 1), CodesBefore(codes, attempts, n - 1),
                     ConsumedBy(kdf, hashes, attempts, n - 1), codes, attempts, n - 1);
  }

  lemma {:induction false} RunConserves(kdf: Kdf, hashes: seq<RecoveryHash>, codes: seq<string>, attempts: seq<string>, n: nat)
    requires n <= |attempts| && Represents(kdf, hashes, codes) && AllSeparate(kdf, hashes, codes, attempts)
    ensures ConservedAt(kdf, hashes, codes, attempts, n)
  {
    hide Represents, AllSeparate;
    if n == 0 {
      ConservedAtFirst(kdf, hashes, codes, attempts);
    } else {
      RunConserves(kdf, hashes, codes, attempts, n - 1);
      ConservedNext(kdf, hashes, codes, attempts, n);
    }
  }

  /** Conservation over any run of attempts: the enrolled codes are, as a multiset, the remaining and
      the consumed ones; the stored list never becomes empty, no code is consumed more often than it
      was enrolled, and at least one code is never consumed. */
  lemma CodesConserved(kdf: Kdf, hashes: seq<RecoveryHash>, codes: seq<string>, attempts: seq<string>, n: nat)
    requires n <= |attempts| && codes != [] && Represents(kdf, hashes, codes) && AllSeparate(kdf, hashes, codes, attempts)
    ensures multiset(codes) == multiset(CodesBefore(codes, attempts, n)) + multiset(ConsumedBy(kdf, hashes, attempts, n))
    ensures |HashesBefore(kdf, hashes, attempts, n)| == |codes| - |ConsumedBy(kdf, hashes, attempts, n)| >= 1
    ensures forall code :: multiset(ConsumedBy(kdf, hashes, attempts, n))[code] <= multiset(codes)[code]
  {
    RunConserves(kdf, hashes, codes, attempts, n);
    var left, used := CodesBefore(codes, attempts, n), ConsumedBy(kdf, hashes, attempts, n);
    assert |multiset(codes)| == |multiset(left)| + |multiset(used)|;
  }

  /** An attempt of the run succeeds exactly when its code is among the remaining ones and another
      code would be left. */
  lemma AttemptSucceedsExactly(kdf: Kdf, hashes: seq<RecoveryHash>, codes: seq<string>, attempts: seq<string>, n: nat)
    requires n < |attempts| && Represents(kdf, hashes, codes) && AllSeparate(kdf, hashes, codes, attempts)
    ensures var used := multiset(ConsumedBy(kdf, hashes, attempts, n));
      Consume(kdf, HashesBefore(kdf, hashes, attempts, n), attempts[n]).Ok? <==>
        used[TrimSpace(attempts[n])] < multiset(codes)[TrimSpace(attempts[n])] && |used| + 1 < |codes|
  {
    RunConserves(kdf, hashes, codes, attempts, n);
    var left, used := CodesBefore(codes, attempts, n), ConsumedBy(kdf, hashes, attempts, n);
    ConsumeRefines(kdf, HashesBefore(kdf, hashes, attempts, n), left, attempts[n]);
    var code := TrimSpace(attempts[n]);
    assert multiset(codes)[code] == multiset(left)[code] + multiset(used)[code];
    assert code in left <==> multiset(left)[code] > 0;
    assert |multiset(codes)| == |multiset(left)| + |multiset(used)|;
  }

  // ---- The operator's stored list ----

  /** encodeRecoveryCodes; `salts` are the random salts, one for each code, None where the source of
      randomness fails. */
  method EncodeRecoveryCodes(kdf: Kdf, codes: seq<string>, salts: seq<Option<string>>) returns (r: Result<seq<RecoveryHash>>)
    requires |salts| == |codes|
    ensures r.Ok? <==> Enrolled(codes) != [] && forall i :: 0 <= i < |codes| && TrimSpace(codes[i]) != "" ==> salts[i].Some?
    ensures r.Ok? ==> Represents(kdf, r.value, Enrolled(codes))
  {
    var hashes: seq<RecoveryHash> := [];
    var i := 0;
    while i < |codes|
      invariant 0 <= i <= |codes|
      invariant Represents(kdf, hashes, Enrolled(codes[..i]))
      invariant forall j :: 0 <= j < i && TrimSpace(codes[j]) != "" ==> salts[j].Some?
    {
      assert codes[..i + 1][..i] == codes[..i];
      var trimmed := TrimSpace(codes[i]);
      if trimmed != "" {
        if salts[i] == None {
          return Err("rand: read failed");
        }
        hashes := hashes + [RecoveryHash(salts[i].value, kdf(trimmed, salts[i].value))];
      }
      i := i + 1;
    }
    assert codes[..i] == codes;
    if |hashes| == 0 {
      return Err("recovery codes cannot be empty");
    }
    r := Ok(hashes);
  }

  class RecoveryCodes {
    const kdf: Kdf
    var hashes: seq<RecoveryHash>

    constructor (kdf: Kdf, hashes: seq<RecoveryHash>)
      ensures this.kdf == kdf && this.hashes == hashes
    {
      this.kdf, this.hashes := kdf, hashes;
    }

    /** consumeRecoveryCode; `readOk` is whether the stored list can be read, `written` whether the UPDATE
        succeeds. */
    method ConsumeCode(attempt: string, readOk: bool, written: bool) returns (r: Result<()>)
      modifies this
      ensures r.Ok? <==> readOk && written && Consume(kdf, old(hashes), attempt).Ok?
      ensures hashes == if r.Ok? then Consume(kdf, old(hashes), attempt).value else old(hashes)
      ensures readOk && Consume(kdf, old(hashes), attempt).Err? ==> r.Err? && r.message == Consume(kdf, old(hashes), attempt).message
    {
      hide TrimSpace, MatchIndex;
      if !readOk {
        return Err("sql: read failed");
      }
      var trimmed := TrimSpace(attempt);
      if trimmed == "" {
        return Err("recovery code is required");
      }
      var matchedIndex := -1;
      var index := 0;
      while index < |hashes|
        invariant 0 <= index <= |hashes| && matchedIndex == -1
        invariant forall j :: 0 <= j < index ==> !Matches(kdf, trimmed, hashes[j])
      {
        if kdf(trimmed, hashes[index].salt) == hashes[index].hash {
          matchedIndex := index;
          break;
        }
        index := index + 1;
      }
      if matchedIndex == -1 {
        return Err("invalid recovery code");
      }
      assert matchedIndex == MatchIndex(kdf, hashes, trimmed);
      var remaining := hashes[..matchedIndex] + hashes[matchedIndex + 1..];
      if |remaining| == 0 {
        return Err("no recovery codes remain after using this code; generate a fresh set before proceeding");
      }
      if !written {
        return Err("sql: write failed");
      }
      hashes := remaining;
      r := Ok(());
    }
  }
}
