/** The two selection drivers, `geonames_naive` and `geonames_manual`: look
    up the ranked cities batch by batch and collect those without an article
    until `limit` of them are gathered or the batches run out. */
module Selection {
  import opened Wrappers
  import opened Cities
  import opened Chunking
  import opened Loader
  import opened Lookup

  /** The default `chunk_size` of `chunk`, which both drivers use. */
  const ChunkSize: nat := 50

  /** The batches a driver walks through for the parsed `rows`. */
  function Batches(rows: seq<CityInfo>): seq<seq<CityInfo>>
  {
    Chunk(LoadGeonames(rows), ChunkSize)
  }

  /** `[city_chunk[x["index"]] for x in missing_cities]`. */
  function Resolve(batch: seq<CityInfo>, found: seq<MissingCityInfo>): (r: seq<CityInfo>)
    requires forall j :: 0 <= j < |found| ==> found[j].index < |batch|
    ensures |r| == |found|
    ensures forall j :: 0 <= j < |found| ==> r[j] == batch[found[j].index]
  {
    seq(|found|, j requires 0 <= j < |found| => batch[found[j].index])
  }

  /** The records of `batch` that the lookup service reports without an
      article, in response order; `lookup` stands for the HTTP query and maps
      the batch's names to the pages of the response. */
  function Candidates(batch: seq<CityInfo>, lookup: seq<string> -> seq<Page>): (r: Result<seq<CityInfo>, Failure>)
    ensures r.Ok? ==> forall x :: x in r.value ==> x in batch
  {
    var names := Names(batch);
    match MissingCities(names, lookup(names))
    case Err(e) => Err(e)
    case Ok(found) => Ok(Resolve(batch, found))
  }

  /** The candidates of the first `k` batches, in batch order, or the failure
      of the first batch whose lookup fails. */
  function Gathered(batches: seq<seq<CityInfo>>, lookup: seq<string> -> seq<Page>, k: nat): (r: Result<seq<CityInfo>, Failure>)
    requires k <= |batches|
  {
    if k == 0 then Ok([])
    else match Gathered(batches, lookup, k - 1)
      case Err(e) => Err(e)
      case Ok(before) =>
        match Candidates(batches[k - 1], lookup)
        case Err(e) => Err(e)
        case Ok(more) => Ok(before + more)
  }

  /** Every gathered record comes from one of the batches looked up. */
  lemma {:induction false} GatheredFromBatches(batches: seq<seq<CityInfo>>, lookup: seq<string> -> seq<Page>, k: nat)
    requires k <= |batches|
    requires Gathered(batches, lookup, k).Ok?
    ensures forall x :: x in Gathered(batches, lookup, k).value ==> x in Flatten(batches)
  {
    if k > 0 {
      GatheredFromBatches(batches, lookup, k - 1);
      forall x | x in Candidates(batches[k - 1], lookup).value
        ensures x in Flatten(batches)
      {
        FlattenMember(batches, k - 1, x);
      }
    }
  }

  /** Every gathered record is one of the parsed rows. */
  lemma GatheredFromRows(rows: seq<CityInfo>, lookup: seq<string> -> seq<Page>, k: nat)
    requires k <= |Batches(rows)|
    requires Gathered(Batches(rows), lookup, k).Ok?
    ensures forall x :: x in Gathered(Batches(rows), lookup, k).value ==> x in rows
  {
    var cities := LoadGeonames(rows);
    GatheredFromBatches(Batches(rows), lookup, k);
    ChunkFlatten(cities, ChunkSize);
    forall x | x in cities ensures x in rows {
      assert x in multiset(cities);
    }
  }

  /** Python's `s[:limit]` for a non-negative `limit`. */
  function Take(s: seq<CityInfo>, limit: nat): (r: seq<CityInfo>)
    ensures |r| <= limit
    ensures r <= s
    ensures limit <= |s| ==> |r| == limit
    ensures |s| <= limit ==> r == s
  {
    if limit < |s| then s[..limit] else s
  }

  /** What a driver returns after `k` batches, drawn from the gathered
      records, consists of parsed rows. */
  lemma TakenFromRows(rows: seq<CityInfo>, lookup: seq<string> -> seq<Page>, k: nat, kept: seq<CityInfo>, limit: nat)
    requires k <= |Batches(rows)|
    requires Gathered(Batches(rows), lookup, k).Ok?
    requires forall x :: x in kept ==> x in Gathered(Batches(rows), lookup, k).value
    ensures forall x :: x in Take(kept, limit) ==> x in rows
  {
    GatheredFromRows(rows, lookup, k);
  }

  /** After batch `k` the automatic driver has fewer than `limit` records,
      so it looks up the next batch. */
  predicate NaiveGoesOn(batches: seq<seq<CityInfo>>, lookup: seq<string> -> seq<Page>, limit: nat, k: nat)
    requires k <= |batches|
  {
    Gathered(batches, lookup, k).Ok? && |Gathered(batches, lookup, k).value| < limit
  }

  /** What a run of `geonames_naive` over `batches` yields when it has looked
      up `queried` batches: it went past a batch only while fewer than
      `limit` records were gathered; it stopped at the first batch that
      reached `limit`, at the last batch, or at a failing lookup; and it
      returns the first `limit` gathered records. */
  predicate NaiveOutcome(batches: seq<seq<CityInfo>>, lookup: seq<string> -> seq<Page>, limit: nat,
                         r: Result<seq<CityInfo>, Failure>, queried: nat)
  {
    && queried <= |batches|
    && (|batches| > 0 ==> queried > 0)
    && (forall k :: 0 < k < queried ==> NaiveGoesOn(batches, lookup, limit, k))
    && var g := Gathered(batches, lookup, queried);
       && (g.Err? ==> r == g)
       && (g.Ok? ==>
             && r.Ok?
             && (queried == |batches| || |g.value| >= limit)
             && r.value == Take(g.value, limit))
  }

  /** `geonames_naive`: every candidate is accepted. Returns the run's
      outcome and the number of batches looked up (the source's counter `i`). */
  method GeonamesNaive(rows: seq<CityInfo>, lookup: seq<string> -> seq<Page>, limit: nat)
    returns (r: Result<seq<CityInfo>, Failure>, queried: nat)
    ensures NaiveOutcome(Batches(rows), lookup, limit, r, queried)
    ensures r.Ok? ==> |r.value| <= limit && forall x :: x in r.value ==> x in rows
  {
    var batches := Batches(rows);
    var found: seq<CityInfo> := [];
    var i := 0;
    while i < |batches|
      invariant 0 <= i <= |batches|
      invariant Gathered(batches, lookup, i) == Ok(found)
      invariant forall k :: 0 < k < i ==> NaiveGoesOn(batches, lookup, limit, k)
      invariant i > 0 ==> |found| < limit
    {
      assert forall k :: 0 < k < i + 1 ==> NaiveGoesOn(batches, lookup, limit, k);
      var batch := batches[i];
      i := i + 1;
      var names := Names(batch);
      var missing := GetMissingCities(names, lookup(names));
      if missing.Err? {
        assert Gathered(batches, lookup, i) == Err(missing.error);
        NaiveFailed(batches, lookup, limit, i, missing.error);
        return Err(missing.error), i;
      }
      found := found + Resolve(batch, missing.value);
      if |found| >= limit {
        break;
      }
    }
    NaiveStopped(batches, lookup, limit, i, found);
    TakenFromRows(rows, lookup, i, found, limit);
    r, queried := Ok(Take(found, limit)), i;
  }

  lemma NaiveStopped(batches: seq<seq<CityInfo>>, lookup: seq<string> -> seq<Page>, limit: nat, i: nat, found: seq<CityInfo>)
    requires i <= |batches|
    requires Gathered(batches, lookup, i) == Ok(found)
    requires forall k :: 0 < k < i ==> NaiveGoesOn(batches, lookup, limit, k)
    requires i == |batches| || (i > 0 && |found| >= limit)
    ensures NaiveOutcome(batches, lookup, limit, Ok(Take(found, limit)), i)
  {
  }

  lemma NaiveFailed(batches: seq<seq<CityInfo>>, lookup: seq<string> -> seq<Page>, limit: nat, i: nat, e: Failure)
    requires 0 < i <= |batches|
    requires Gathered(batches, lookup, i) == Err(e)
    requires forall k :: 0 < k < i ==> NaiveGoesOn(batches, lookup, limit, k)
    ensures NaiveOutcome(batches, lookup, limit, Err(e), i)
  {
  }

  /** ASCII lower-casing of one character. */
  function LowerChar(c: char): char
  {
    if 'A' <= c <= 'Z' then (c as int + 32) as char else c
  }

  /** `str.lower()`, restricted to ASCII letters. */
  function Lower(s: string): (r: string)
    ensures |r| == |s|
    ensures forall i :: 0 <= i < |s| ==> r[i] == LowerChar(s[i])
  {
    seq(|s|, i requires 0 <= i < |s| => LowerChar(s[i]))
  }

  /** The answer that adds a city in `geonames_manual`. */
  predicate Affirmative(answer: string)
  {
    Lower(answer) == "y" || Lower(answer) == "yes"
  }

  /** The affirmative answers are exactly the spellings of "y" and "yes" in
      any mix of upper and lower case. */
  lemma AffirmativeSpellings(answer: string)
    ensures Affirmative(answer) <==>
      || (|answer| == 1 && answer[0] in "yY")
      || (|answer| == 3 && answer[0] in "yY" && answer[1] in "eE" && answer[2] in "sS")
  {
    var low := Lower(answer);
    if |answer| == 1 {
      assert low == "y" <==> low[0] == 'y';
    } else if |answer| == 3 {
      assert low == "yes" <==> low[0] == 'y' && low[1] == 'e' && low[2] == 's';
    }
  }

  /** The candidates the operator accepts when answer `j` is given for
      candidate `j`, in candidate order. */
  function KeepAffirmed(cands: seq<CityInfo>, answers: seq<string>): (r: seq<CityInfo>)
    ensures |r| <= |cands|
    ensures forall x :: x in r ==> x in cands
  {
    if cands == [] then []
    else
      var n := |cands| - 1;
      var kept := KeepAffirmed(cands[..n], answers);
      assert forall x :: x in kept ==> x in cands by {
        assert forall x :: x in cands[..n] ==> x in cands;
      }
      kept + (if n < |answers| && Affirmative(answers[n]) then [cands[n]] else [])
  }

  /** The positions below `n` whose answer is affirmative, in increasing
      order: the candidates the prompt loop keeps. */
  function AffirmedPositions(n: nat, answers: seq<string>): (r: seq<nat>)
    ensures forall i :: 0 <= i < |r| ==> r[i] < n && r[i] < |answers| && Affirmative(answers[r[i]])
    ensures forall i, k :: 0 <= i < k < |r| ==> r[i] < r[k]
    ensures forall j :: 0 <= j < n && j < |answers| && Affirmative(answers[j]) ==> j in r
  {
    if n == 0 then []
    else
      AffirmedPositions(n - 1, answers)
        + (if n - 1 < |answers| && Affirmative(answers[n - 1]) then [n - 1] else [])
  }

  /** The kept records are the candidates at the affirmative positions, in
      candidate order: candidate `j` is kept exactly when answer `j` is
      affirmative. */
  lemma {:induction false} KeepAffirmedPicks(cands: seq<CityInfo>, answers: seq<string>)
    ensures |KeepAffirmed(cands, answers)| == |AffirmedPositions(|cands|, answers)|
    ensures forall i :: 0 <= i < |KeepAffirmed(cands, answers)| ==>
      KeepAffirmed(cands, answers)[i] == cands[AffirmedPositions(|cands|, answers)[i]]
    decreases |cands|
  {
    if cands != [] {
      var n := |cands| - 1;
      KeepAffirmedPicks(cands[..n], answers);
      var kept := KeepAffirmed(cands[..n], answers);
      var pos := AffirmedPositions(n, answers);
      var extra := n < |answers| && Affirmative(answers[n]);
      assert KeepAffirmed(cands, answers) == kept + (if extra then [cands[n]] else []);
      assert AffirmedPositions(|cands|, answers) == pos + (if extra then [n] else []);
      forall i | 0 <= i < |kept|
        ensures kept[i] == cands[pos[i]]
      {
        assert kept[i] == cands[..n][pos[i]];
      }
    }
  }

  /** A candidate whose answer is affirmative is kept. */
  lemma KeepAffirmedKeeps(cands: seq<CityInfo>, answers: seq<string>, j: nat)
    requires j < |cands| && j < |answers| && Affirmative(answers[j])
    ensures cands[j] in KeepAffirmed(cands, answers)
  {
    KeepAffirmedPicks(cands, answers);
    var pos := AffirmedPositions(|cands|, answers);
    var i :| 0 <= i < |pos| && pos[i] == j;
    assert KeepAffirmed(cands, answers)[i] == cands[j];
  }

  /** With "y" or "yes" to every candidate, the interactive driver keeps
      exactly what the automatic one keeps. */
  lemma {:induction false} KeepAffirmedAll(cands: seq<CityInfo>, answers: seq<string>)
    requires |cands| <= |answers|
    requires forall j :: 0 <= j < |cands| ==> Affirmative(answers[j])
    ensures KeepAffirmed(cands, answers) == cands
    decreases |cands|
  {
    if cands != [] {
      var n := |cands| - 1;
      KeepAffirmedAll(cands[..n], answers);
      assert cands[..n] + [cands[n]] == cands;
    }
  }

  /** With no affirmative answer, nothing is kept. */
  lemma {:induction false} KeepAffirmedNone(cands: seq<CityInfo>, answers: seq<string>)
    requires forall j :: 0 <= j < |answers| ==> !Affirmative(answers[j])
    ensures KeepAffirmed(cands, answers) == []
    decreases |cands|
  {
    if cands != [] {
      KeepAffirmedNone(cands[..|cands| - 1], answers);
    }
  }

  lemma KeepAffirmedSnoc(cands: seq<CityInfo>, x: CityInfo, answers: seq<string>)
    ensures KeepAffirmed(cands + [x], answers) ==
      KeepAffirmed(cands, answers) + (if |cands| < |answers| && Affirmative(answers[|cands|]) then [x] else [])
  {
    assert (cands + [x])[..|cands|] == cands;
  }

  lemma SliceSnoc<T>(s: seq<T>, j: nat)
    requires j < |s|
    ensures s[..j + 1] == s[..j] + [s[j]]
  {
  }

  lemma SliceAll<T>(s: seq<T>)
    ensures s[..|s|] == s
  {
  }

  /** The prompt loop of `geonames_manual` over one batch's candidates:
      answer `used + j` decides candidate `j`. `complete` is false when the
      answers run out, where `input()` raises EOFError. */
  method ConfirmCandidates(batch: seq<CityInfo>, cands: seq<MissingCityInfo>, answers: seq<string>,
                           used: nat, accepted: seq<CityInfo>, ghost before: seq<CityInfo>)
    returns (accepted': seq<CityInfo>, used': nat, complete: bool)
    requires forall j :: 0 <= j < |cands| ==> cands[j].index < |batch|
    requires used == |before| <= |answers|
    requires accepted == KeepAffirmed(before, answers)
    ensures complete <==> used + |cands| <= |answers|
    ensures complete ==> used' == used + |cands|
    ensures complete ==> accepted' == KeepAffirmed(before + Resolve(batch, cands), answers)
  {
    ghost var offered := Resolve(batch, cands);
    ghost var seen := before;  // the candidates asked about so far, over the whole run
    accepted', used' := accepted, used;
    var j := 0;
    while j < |cands|
      invariant 0 <= j <= |cands|
      invariant used' == used + j <= |answers|
      invariant seen == before + offered[..j] && |seen| == used'
      invariant accepted' == KeepAffirmed(seen, answers)
    {
      if used' >= |answers| {
        return accepted', used', false;
      }
      var answer := answers[used'];
      KeepAffirmedSnoc(seen, offered[j], answers);
      seen := seen + [offered[j]];
      SliceSnoc(offered, j);
      used' := used' + 1;
      if Affirmative(answer) {
        accepted' := accepted' + [batch[cands[j].index]];
      }
      j := j + 1;
    }
    SliceAll(offered);
    complete := true;
  }

  /** After batch `k` the interactive driver has every answer it asked for
      and fewer than `limit` accepted records, so it looks up the next batch. */
  predicate ManualGoesOn(batches: seq<seq<CityInfo>>, lookup: seq<string> -> seq<Page>, answers: seq<string>, limit: nat, k: nat)
    requires k <= |batches|
  {
    && Gathered(batches, lookup, k).Ok?
    && |Gathered(batches, lookup, k).value| <= |answers|
    && |KeepAffirmed(Gathered(batches, lookup, k).value, answers)| < limit
  }

  /** What a run of `geonames_manual` over `batches` yields when it has
      looked up `queried` batches: it went past a batch only while fewer than
      `limit` records were accepted; a failing lookup aborts with its error
      and running out of answers aborts with `EndOfInput`; otherwise it
      stopped at the first batch that reached `limit` or at the last batch,
      and returns the first `limit` accepted records. */
  predicate ManualOutcome(batches: seq<seq<CityInfo>>, lookup: seq<string> -> seq<Page>, answers: seq<string>,
                          limit: nat, r: Result<seq<CityInfo>, Failure>, queried: nat)
  {
    && queried <= |batches|
    && (|batches| > 0 ==> queried > 0)
    && (forall k :: 0 < k < queried ==> ManualGoesOn(batches, lookup, answers, limit, k))
    && var g := Gathered(batches, lookup, queried);
       && (g.Err? ==> r == g)
       && (g.Ok? ==> (r == Err(EndOfInput) <==> |g.value| > |answers|))
       && (g.Ok? && |g.value| <= |answers| ==>
             && r.Ok?
             && (queried == |batches| || |KeepAffirmed(g.value, answers)| >= limit)
             && r.value == Take(KeepAffirmed(g.value, answers), limit))
  }

  /** `geonames_manual`: candidate `j` of the run is kept exactly when answer
      `j` is affirmative. Returns the run's outcome and the number of batches
      looked up (the source's counter `i`). */
  method GeonamesManual(rows: seq<CityInfo>, lookup: seq<string> -> seq<Page>, answers: seq<string>, limit: nat)
    returns (r: Result<seq<CityInfo>, Failure>, queried: nat)
    ensures ManualOutcome(Batches(rows), lookup, answers, limit, r, queried)
    ensures r.Ok? ==> |r.value| <= limit && forall x :: x in r.value ==> x in rows
  {
    var batches := Batches(rows);
    var accepted: seq<CityInfo> := [];
    var used := 0;  // answers read so far
    var i := 0;
    while i < |batches|
      invariant 0 <= i <= |batches|
      invariant Gathered(batches, lookup, i).Ok?
      invariant used == |Gathered(batches, lookup, i).value| <= |answers|
      invariant accepted == KeepAffirmed(Gathered(batches, lookup, i).value, answers)
      invariant forall k :: 0 < k < i ==> ManualGoesOn(batches, lookup, answers, limit, k)
      invariant i > 0 ==> |accepted| < limit
    {
      ghost var before := Gathered(batches, lookup, i).value;
      assert i > 0 ==> ManualGoesOn(batches, lookup, answers, limit, i);
      assert forall k :: 0 < k < i + 1 ==> ManualGoesOn(batches, lookup, answers, limit, k);
      var batch := batches[i];
      i := i + 1;
      var names := Names(batch);
      var missing := GetMissingCities(names, lookup(names));
      if missing.Err? {
        assert Gathered(batches, lookup, i) == Err(missing.error);
        ManualFailed(batches, lookup, answers, limit, i, missing.error);
        return Err(missing.error), i;
      }
      ghost var offered := Resolve(batch, missing.value);
      assert Gathered(batches, lookup, i) == Ok(before + offered);
      var complete;
      accepted, used, complete := ConfirmCandidates(batch, missing.value, answers, used, accepted, before);
      if !complete {
        ManualOutOfInput(batches, lookup, answers, limit, i);
        return Err(EndOfInput), i;
      }
      if |accepted| >= limit {
        break;
      }
    }
    ManualStopped(batches, lookup, answers, limit, i, accepted);
    TakenFromRows(rows, lookup, i, accepted, limit);
    r, queried := Ok(Take(accepted, limit)), i;
  }

  lemma ManualStopped(batches: seq<seq<CityInfo>>, lookup: seq<string> -> seq<Page>, answers: seq<string>,
                      limit: nat, i: nat, accepted: seq<CityInfo>)
    requires i <= |batches|
    requires Gathered(batches, lookup, i).Ok? && |Gathered(batches, lookup, i).value| <= |answers|
    requires accepted == KeepAffirmed(Gathered(batches, lookup, i).value, answers)
    requires forall k :: 0 < k < i ==> ManualGoesOn(batches, lookup, answers, limit, k)
    requires i == |batches| || (i > 0 && |accepted| >= limit)
    ensures ManualOutcome(batches, lookup, answers, limit, Ok(Take(accepted, limit)), i)
  {
  }

  lemma ManualFailed(batches: seq<seq<CityInfo>>, lookup: seq<string> -> seq<Page>, answers: seq<string>,
                     limit: nat, i: nat, e: Failure)
    requires 0 < i <= |batches|
    requires Gathered(batches, lookup, i) == Err(e)
    requires forall k :: 0 < k < i ==> ManualGoesOn(batches, lookup, answers, limit, k)
    ensures ManualOutcome(batches, lookup, answers, limit, Err(e), i)
  {
  }

  lemma ManualOutOfInput(batches: seq<seq<CityInfo>>, lookup: seq<string> -> seq<Page>, answers: seq<string>,
                         limit: nat, i: nat)
    requires 0 < i <= |batches|
    requires Gathered(batches, lookup, i).Ok? && |Gathered(batches, lookup, i).value| > |answers|
    requires forall k :: 0 < k < i ==> ManualGoesOn(batches, lookup, answers, limit, k)
    ensures ManualOutcome(batches, lookup, answers, limit, Err(EndOfInput), i)
  {
  }

  /** A run stops at the last batch or at the first batch after which the
      automatic driver would not go on. */
  lemma NaiveStopsAt(batches: seq<seq<CityInfo>>, lookup: seq<string> -> seq<Page>, limit: nat,
                     r: Result<seq<CityInfo>, Failure>, q: nat)
    requires NaiveOutcome(batches, lookup, limit, r, q)
    ensures q == |batches| || !NaiveGoesOn(batches, lookup, limit, q)
  {
  }

  /** `NaiveOutcome` pins down one result and one batch count for given
      batches, lookup and limit. */
  lemma NaiveOutcomeUnique(batches: seq<seq<CityInfo>>, lookup: seq<string> -> seq<Page>, limit: nat,
                           r1: Result<seq<CityInfo>, Failure>, q1: nat, r2: Result<seq<CityInfo>, Failure>, q2: nat)
    requires NaiveOutcome(batches, lookup, limit, r1, q1)
    requires NaiveOutcome(batches, lookup, limit, r2, q2)
    ensures q1 == q2 && r1 == r2
  {
    NaiveStopsAt(batches, lookup, limit, r1, q1);
    NaiveStopsAt(batches, lookup, limit, r2, q2);
    if q1 < q2 {
      assert false;
    } else if q2 < q1 {
      assert false;
    }
  }

  /** Every batch before the last one looked up let the automatic driver go on. */
  lemma NaiveWentOn(batches: seq<seq<CityInfo>>, lookup: seq<string> -> seq<Page>, limit: nat,
                    r: Result<seq<CityInfo>, Failure>, q: nat, k: nat)
    requires NaiveOutcome(batches, lookup, limit, r, q)
    requires 0 < k < q
    ensures NaiveGoesOn(batches, lookup, limit, k)
  {
  }

  /** With `limit == 0` the automatic driver looks up only the first batch
      and returns nothing. */
  lemma NaiveLimitZero(batches: seq<seq<CityInfo>>, lookup: seq<string> -> seq<Page>,
                       r: Result<seq<CityInfo>, Failure>, q: nat)
    requires NaiveOutcome(batches, lookup, 0, r, q)
    ensures q == if |batches| == 0 then 0 else 1
    ensures r.Ok? ==> r.value == []
  {
    if q > 1 {
      NaiveWentOn(batches, lookup, 0, r, q, 1);
      assert false;
    }
  }

  /** A run stops at the last batch or at the first batch after which the
      interactive driver would not go on. */
  lemma ManualStopsAt(batches: seq<seq<CityInfo>>, lookup: seq<string> -> seq<Page>, answers: seq<string>, limit: nat,
                      r: Result<seq<CityInfo>, Failure>, q: nat)
    requires ManualOutcome(batches, lookup, answers, limit, r, q)
    ensures q == |batches| || !ManualGoesOn(batches, lookup, answers, limit, q)
  {
  }

  /** `ManualOutcome` pins down one result and one batch count for given
      batches, lookup, answers and limit. */
  lemma ManualOutcomeUnique(batches: seq<seq<CityInfo>>, lookup: seq<string> -> seq<Page>, answers: seq<string>, limit: nat,
                            r1: Result<seq<CityInfo>, Failure>, q1: nat, r2: Result<seq<CityInfo>, Failure>, q2: nat)
    requires ManualOutcome(batches, lookup, answers, limit, r1, q1)
    requires ManualOutcome(batches, lookup, answers, limit, r2, q2)
    ensures q1 == q2 && r1 == r2
  {
    ManualStopsAt(batches, lookup, answers, limit, r1, q1);
    ManualStopsAt(batches, lookup, answers, limit, r2, q2);
    if q1 < q2 {
      assert false;
    } else if q2 < q1 {
      assert false;
    }
  }

  /** Every batch before the last one looked up let the interactive driver go on. */
  lemma ManualWentOn(batches: seq<seq<CityInfo>>, lookup: seq<string> -> seq<Page>, answers: seq<string>, limit: nat,
                     r: Result<seq<CityInfo>, Failure>, q: nat, k: nat)
    requires ManualOutcome(batches, lookup, answers, limit, r, q)
    requires 0 < k < q
    ensures ManualGoesOn(batches, lookup, answers, limit, k)
  {
  }

  /** With `limit == 0` the interactive driver looks up only the first batch
      and returns nothing. */
  lemma ManualLimitZero(batches: seq<seq<CityInfo>>, lookup: seq<string> -> seq<Page>, answers: seq<string>,
                        r: Result<seq<CityInfo>, Failure>, q: nat)
    requires ManualOutcome(batches, lookup, answers, 0, r, q)
    ensures q == if |batches| == 0 then 0 else 1
    ensures r.Ok? ==> r.value == []
  {
    if q > 1 {
      ManualWentOn(batches, lookup, answers, 0, r, q, 1);
      assert false;
    }
  }

  /** Answering "y" to every prompt makes `geonames_manual` return what
      `geonames_naive` returns, after looking up the same batches. */
  lemma {:induction false} ManualAllYesIsNaive(batches: seq<seq<CityInfo>>, lookup: seq<string> -> seq<Page>,
                                               answers: seq<string>, limit: nat, r: Result<seq<CityInfo>, Failure>, q: nat)
    requires forall j :: 0 <= j < |answers| ==> Affirmative(answers[j])
    requires r != Err(EndOfInput)
    requires ManualOutcome(batches, lookup, answers, limit, r, q)
    ensures NaiveOutcome(batches, lookup, limit, r, q)
  {
    forall k | 0 <= k <= q && Gathered(batches, lookup, k).Ok?
      ensures KeepAffirmed(Gathered(batches, lookup, k).value, answers) == Gathered(batches, lookup, k).value
    {
      if 0 < k < q {
        ManualWentOn(batches, lookup, answers, limit, r, q, k);
      }
      KeepAffirmedAll(Gathered(batches, lookup, k).value, answers);
    }
    forall k | 0 < k < q
      ensures NaiveGoesOn(batches, lookup, limit, k)
    {
      assert ManualGoesOn(batches, lookup, answers, limit, k);
    }
  }
}
