/**
  The bandwidth tester: the sample counter of the writer and the loss accounting of the reader.
  All the counters are 32-bit.
 */
module Bandwidth {

  const WORD: int := 0x1_0000_0000
  const MAX_HISTORY: nat := 128

  type Count = x: int | 0 <= x < WORD

  // ---- The writer ----

  /** What a write returned, errors other than a timeout being fatal. */
  datatype Outcome = Ok | Timeout

  ghost function Written(outcomes: seq<Outcome>): nat {
    if outcomes == [] then 0
    else Written(outcomes[..|outcomes| - 1]) + if outcomes[|outcomes| - 1] == Ok then 1 else 0
  }

  /** The counters 0, 1, ... of `n` samples. */
  ghost function Counters(n: nat): (s: seq<Count>)
    ensures |s| == n && forall i :: 0 <= i < n ==> s[i] == i % WORD
  {
    if n == 0 then [] else Counters(n - 1) + [(n - 1) % WORD]
  }

  lemma Wraps(n: nat)
    ensures (n % WORD + 1) % WORD == (n + 1) % WORD
  {
  }

  /** The writing loop: a sample that timed out is written again under the same counter. */
  method WriteData(outcomes: seq<Outcome>) returns (sent: seq<Count>, counter: Count)
    ensures counter == Written(outcomes) % WORD
    ensures sent == Counters(Written(outcomes))
  {
    sent, counter := [], 0;
    for i := 0 to |outcomes|
      invariant counter == Written(outcomes[..i]) % WORD
      invariant sent == Counters(Written(outcomes[..i]))
    {
      assert outcomes[..i + 1][..i] == outcomes[..i];
      if outcomes[i] == Ok {
        Wraps(Written(outcomes[..i]));
        sent := sent + [counter];
        counter := (counter + 1) % WORD;
      }
    }
    assert outcomes[..|outcomes|] == outcomes;
  }

  // ---- The reader ----

  datatype Sample = Sample(valid: bool, counter: Count)

  datatype Report = Missed(nsamples: Count) | Incorrect

  datatype Slot = Slot(samples: Count, missed: Count)

  /** The accounts of the reader and the status reports it has published. */
  datatype Accounts = Accounts(samples: Count, missed: Count, expected: Count, reports: seq<Report>)

  /** The accounts of the whole test and those of its seconds. */
  datatype Ledger = Ledger(accounts: Accounts, history: seq<Slot>)

  const NO_ACCOUNTS := Accounts(0, 0, 0, [])

  function Gap(a: Accounts, counter: Count): Count {
    if counter > a.expected then counter - a.expected else 0
  }

  function Take(a: Accounts, counter: Count): Accounts {
    Accounts((a.samples + 1) % WORD,
             (a.missed + Gap(a, counter)) % WORD,
             (counter + 1) % WORD,
             a.reports + if counter > a.expected then [Missed(Gap(a, counter))]
                         else if counter < a.expected then [Incorrect] else [])
  }

  /** One more sample in a second, after some that were missed; late seconds are not kept. */
  function Record(history: seq<Slot>, second: nat, gap: Count): seq<Slot> {
    if second < |history| then
      history[second := Slot((history[second].samples + 1) % WORD, (history[second].missed + gap) % WORD)]
    else history
  }

  function TakeIn(l: Ledger, second: nat, counter: Count): Ledger {
    Ledger(Take(l.accounts, counter), Record(l.history, second, Gap(l.accounts, counter)))
  }

  /** The counters of the samples that carry data. */
  function Received(samples: seq<Sample>): seq<Count> {
    if samples == [] then []
    else Received(samples[..|samples| - 1]) + if samples[|samples| - 1].valid then [samples[|samples| - 1].counter] else []
  }

  function TakeAll(a: Accounts, counters: seq<Count>): Accounts {
    if counters == [] then a else Take(TakeAll(a, counters[..|counters| - 1]), counters[|counters| - 1])
  }

  function TakeAllIn(l: Ledger, second: nat, counters: seq<Count>): Ledger {
    if counters == [] then l
    else TakeIn(TakeAllIn(l, second, counters[..|counters| - 1]), second, counters[|counters| - 1])
  }

  /** What one call of the reader took, and the second of the test it was in. */
  datatype Batch = Batch(second: nat, samples: seq<Sample>)

  function ReadAll(l: Ledger, batches: seq<Batch>): Ledger {
    if batches == [] then l
    else
      var last := batches[|batches| - 1];
      TakeAllIn(ReadAll(l, batches[..|batches| - 1]), last.second, Received(last.samples))
  }

  /** The counters received in all the batches. */
  function ReceivedIn(batches: seq<Batch>): seq<Count> {
    if batches == [] then []
    else ReceivedIn(batches[..|batches| - 1]) + Received(batches[|batches| - 1].samples)
  }

  lemma ReceivedOne(samples: seq<Sample>, i: nat)
    requires i < |samples|
    ensures Received(samples[..i + 1]) == Received(samples[..i]) + if samples[i].valid then [samples[i].counter] else []
  {
    assert samples[..i + 1][..i] == samples[..i];
  }

  lemma TakeInOne(l: Ledger, second: nat, counters: seq<Count>, counter: Count)
    ensures TakeAllIn(l, second, counters + [counter]) == TakeIn(TakeAllIn(l, second, counters), second, counter)
  {
    assert (counters + [counter])[..|counters|] == counters;
  }

  lemma TakeNone(l: Ledger, second: nat)
    ensures TakeAllIn(l, second, Received([])) == l
  {
  }

  class Reader {
    var samples: Count
    var missed: Count
    var expected: Count
    var reports: seq<Report>
    var history: seq<Slot>

    function Value(): Ledger
      reads this
    {
      Ledger(Accounts(samples, missed, expected, reports), history)
    }

    constructor ()
      ensures Value().accounts == NO_ACCOUNTS
      ensures |history| == MAX_HISTORY && forall i :: 0 <= i < MAX_HISTORY ==> history[i] == Slot(0, 0)
    {
      samples, missed, expected, reports := 0, 0, 0, [];
      history := seq(MAX_HISTORY, _ => Slot(0, 0));
    }

    /** One sample that carries data. */
    method TakeSample(counter: Count, second: nat)
      requires |history| == MAX_HISTORY
      modifies this
      ensures |history| == MAX_HISTORY && Value() == TakeIn(old(Value()), second, counter)
    {
      if counter > expected {
        missed := (missed + counter - expected) % WORD;
        if second < MAX_HISTORY {
          history := history[second := history[second].(missed := (history[second].missed + counter - expected) % WORD)];
        }
        reports := reports + [Missed(counter - expected)];
      } else if counter < expected {
        reports := reports + [Incorrect];
      }
      if second < MAX_HISTORY {
        history := history[second := history[second].(samples := (history[second].samples + 1) % WORD)];
      }
      samples := (samples + 1) % WORD;
      expected := (counter + 1) % WORD;
    }

    /** bw_read_data on what one take returned, in the given second of the test. */
    method ReadData(taken: seq<Sample>, second: nat)
      requires |history| == MAX_HISTORY
      modifies this
      ensures |history| == MAX_HISTORY && Value() == TakeAllIn(old(Value()), second, Received(taken))
    {
      hide TakeIn, TakeAllIn, Received;
      TakeNone(Value(), second);
      for i := 0 to |taken|
        invariant |history| == MAX_HISTORY && Value() == TakeAllIn(old(Value()), second, Received(taken[..i]))
      {
        ReceivedOne(taken, i);
        TakeInOne(old(Value()), second, Received(taken[..i]), taken[i].counter);
        if !taken[i].valid {
          assert Received(taken[..i]) + [] == Received(taken[..i]);
        } else {
          TakeSample(taken[i].counter, second);
        }
      }
      assert taken[..|taken|] == taken;
    }
  }

  // ---- What the accounts say ----

  ghost predicate Increasing(counters: seq<Count>) {
    forall i, j :: 0 <= i < j < |counters| ==> counters[i] < counters[j]
  }

  /** Those of the samples that arrive, in order. */
  ghost function Delivered(sent: seq<Count>, arrives: seq<bool>): seq<Count>
    requires |arrives| == |sent|
  {
    if sent == [] then [] else
    Delivered(sent[..|sent| - 1], arrives[..|sent| - 1]) + if arrives[|sent| - 1] then [sent[|sent| - 1]] else []
  }

  /** The samples below `n` that are not among the given ones. */
  ghost function Lost(n: nat, counters: seq<Count>): set<int> {
    set k | 0 <= k < n && k !in counters
  }

  ghost function Range(n: int, c: int): (r: set<int>)
    requires n <= c
    ensures |r| == c - n && forall k :: k in r <==> n <= k < c
    decreases c - n
  {
    if n == c then {} else Range(n, c - 1) + {c - 1}
  }

  ghost function TotalMissed(reports: seq<Report>): nat {
    if reports == [] then 0
    else TotalMissed(reports[..|reports| - 1]) + match reports[|reports| - 1] case Missed(n) => n case Incorrect => 0
  }

  /** The counter the reader expects after these. */
  ghost function Next(counters: seq<Count>): nat {
    if counters == [] then 0 else 1 + counters[|counters| - 1] as int
  }

  /** What the accounts are to say about the samples received in order. */
  ghost predicate Accurate(a: Accounts, counters: seq<Count>) {
    && a.samples == |counters| && a.expected == Next(counters)
    && a.samples + a.missed == a.expected
    && a.missed == |Lost(a.expected, counters)| == TotalMissed(a.reports)
    && Incorrect !in a.reports
  }

  lemma DeliveredIn(sent: seq<Count>, arrives: seq<bool>)
    requires |arrives| == |sent|
    ensures forall c :: c in Delivered(sent, arrives) ==> c in sent
    ensures |Delivered(sent, arrives)| <= |sent|
  {
    if sent != [] {
      DeliveredIn(sent[..|sent| - 1], arrives[..|sent| - 1]);
    }
  }

  lemma {:induction false} DeliveredIncreasing(sent: seq<Count>, arrives: seq<bool>)
    requires |arrives| == |sent| && Increasing(sent)
    ensures Increasing(Delivered(sent, arrives))
  {
    if sent != [] {
      var front := sent[..|sent| - 1];
      DeliveredIncreasing(front, arrives[..|sent| - 1]);
      DeliveredIn(front, arrives[..|sent| - 1]);
      var d := Delivered(front, arrives[..|sent| - 1]);
      forall i | 0 <= i < |d| ensures d[i] < sent[|sent| - 1] {
        assert d[i] in front;
      }
    }
  }

  lemma BelowNext(counters: seq<Count>, c: Count)
    requires Increasing(counters + [c])
    ensures forall i :: 0 <= i < |counters| ==> counters[i] < Next(counters)
  {
    forall i | 0 <= i < |counters| ensures counters[i] < Next(counters) {
      assert i < |counters| - 1 ==> (counters + [c])[i] < (counters + [c])[|counters| - 1];
    }
  }

  /** The samples lost up to one more that arrives: those before and those in the gap. */
  lemma LostOne(counters: seq<Count>, c: Count)
    requires Increasing(counters + [c])
    ensures Next(counters) <= c
    ensures |Lost(c + 1, counters + [c])| == |Lost(Next(counters), counters)| + c - Next(counters)
  {
    if counters != [] {
      assert (counters + [c])[|counters| - 1] < (counters + [c])[|counters|];
    }
    BelowNext(counters, c);
    LostUnion(counters, c, Next(counters));
  }

  lemma LostUnion(counters: seq<Count>, c: Count, n: nat)
    requires n <= c && forall i :: 0 <= i < |counters| ==> counters[i] < n
    ensures |Lost(c + 1, counters + [c])| == |Lost(n, counters)| + c - n
  {
    var before, gap := Lost(n, counters), Range(n, c);
    forall k ensures k in Lost(c + 1, counters + [c]) <==> k in before + gap {
    }
    assert Lost(c + 1, counters + [c]) == before + gap;
    assert before !! gap;
  }

  /** One sample that is not early, with no counter wrapping round. */
  lemma TakeInOrder(a: Accounts, c: Count)
    requires a.samples + a.missed == a.expected <= c && c + 1 < WORD
    ensures var a' := Take(a, c);
      && a'.samples == a.samples + 1 && a'.missed == a.missed + c - a.expected && a'.expected == c + 1
      && a'.reports == a.reports + if c > a.expected then [Missed(c - a.expected)] else []
  {
  }

  lemma TotalMissedOne(reports: seq<Report>, n: Count)
    ensures TotalMissed(reports + [Missed(n)]) == TotalMissed(reports) + n
  {
    assert (reports + [Missed(n)])[..|reports|] == reports;
  }

  lemma AccurateOne(a: Accounts, counters: seq<Count>, c: Count)
    requires Increasing(counters + [c]) && c + 1 < WORD && Accurate(a, counters)
    ensures Accurate(Take(a, c), counters + [c])
  {
    hide Lost, Increasing, Take, TotalMissed;
    LostOne(counters, c);
    TakeInOrder(a, c);
    if c > a.expected {
      TotalMissedOne(a.reports, c - a.expected);
    } else {
      assert a.reports + [] == a.reports;
    }
  }

  lemma {:induction false} InOrder(counters: seq<Count>)
    requires Increasing(counters) && forall i :: 0 <= i < |counters| ==> counters[i] < WORD - 1
    ensures Accurate(TakeAll(NO_ACCOUNTS, counters), counters)
  {
    if counters != [] {
      var front := counters[..|counters| - 1];
      assert counters == front + [counters[|counters| - 1]];
      InOrder(front);
      AccurateOne(TakeAll(NO_ACCOUNTS, front), front, counters[|counters| - 1]);
    } else {
      assert Lost(0, []) == {};
    }
  }

  // ---- Batches and seconds ----

  lemma {:induction false} TakeAllConcat(a: Accounts, s: seq<Count>, t: seq<Count>)
    ensures TakeAll(a, s + t) == TakeAll(TakeAll(a, s), t)
    decreases |t|
  {
    hide Take;
    if t == [] {
      assert s + t == s;
    } else {
      assert (s + t)[..|s + t| - 1] == s + t[..|t| - 1];
      TakeAllConcat(a, s, t[..|t| - 1]);
    }
  }

  lemma {:induction false} AccountsOf(l: Ledger, second: nat, counters: seq<Count>)
    ensures TakeAllIn(l, second, counters).accounts == TakeAll(l.accounts, counters)
    decreases |counters|
  {
    hide Take;
    if counters != [] {
      AccountsOf(l, second, counters[..|counters| - 1]);
    }
  }

  /** The totals do not depend on the division into batches or on the seconds. */
  lemma {:induction false} TotalsOf(l: Ledger, batches: seq<Batch>)
    ensures ReadAll(l, batches).accounts == TakeAll(l.accounts, ReceivedIn(batches))
    decreases |batches|
  {
    hide TakeAllIn, TakeAll, Received;
    if batches == [] {
      TakeAllNone(l.accounts);
    } else {
      var front, last := batches[..|batches| - 1], batches[|batches| - 1];
      TotalsOf(l, front);
      AccountsOf(ReadAll(l, front), last.second, Received(last.samples));
      TakeAllConcat(l.accounts, ReceivedIn(front), Received(last.samples));
    }
  }

  lemma TakeAllNone(a: Accounts)
    ensures TakeAll(a, []) == a
  {
  }

  ghost function SumSamples(history: seq<Slot>): nat {
    if history == [] then 0 else SumSamples(history[..|history| - 1]) + history[|history| - 1].samples
  }

  ghost function SumMissed(history: seq<Slot>): nat {
    if history == [] then 0 else SumMissed(history[..|history| - 1]) + history[|history| - 1].missed
  }

  lemma {:induction false} SumsChange(history: seq<Slot>, k: nat, s: Slot)
    requires k < |history|
    ensures SumSamples(history[k := s]) == SumSamples(history) - history[k].samples + s.samples
    ensures SumMissed(history[k := s]) == SumMissed(history) - history[k].missed + s.missed
    ensures history[k].samples <= SumSamples(history) && history[k].missed <= SumMissed(history)
    decreases |history|
  {
    var front := history[..|history| - 1];
    if k == |history| - 1 {
      assert history[k := s][..|history| - 1] == front;
    } else {
      assert history[k := s][..|history| - 1] == front[k := s];
      SumsChange(front, k, s);
    }
  }

  lemma {:induction false} SumsNone(history: seq<Slot>)
    requires forall i :: 0 <= i < |history| ==> history[i] == Slot(0, 0)
    ensures SumSamples(history) == SumMissed(history) == 0
    decreases |history|
  {
    if history != [] {
      SumsNone(history[..|history| - 1]);
    }
  }

  /** The seconds add up to the totals. */
  ghost predicate AddsUp(l: Ledger) {
    SumSamples(l.history) == l.accounts.samples && SumMissed(l.history) == l.accounts.missed
  }

  lemma AddsUpOne(l: Ledger, second: nat, c: Count)
    requires AddsUp(l) && second < |l.history| && c + 1 < WORD
    requires l.accounts.samples + l.accounts.missed == l.accounts.expected <= c
    ensures AddsUp(TakeIn(l, second, c)) && |TakeIn(l, second, c).history| == |l.history|
  {
    hide SumSamples, SumMissed;
    TakeInOrder(l.accounts, c);
    var h, gap := l.history, Gap(l.accounts, c);
    SumsChange(h, second, h[second]);
    NoWrap(h[second].samples, 1);
    NoWrap(h[second].missed, gap);
    SumsChange(h, second, Slot((h[second].samples + 1) % WORD, (h[second].missed + gap) % WORD));
  }

  lemma NoWrap(n: nat, m: nat)
    ensures n + m < WORD ==> (n + m) % WORD == n + m
  {
  }

  /** The samples of a batch in order, after others: the seconds keep adding up. */
  lemma {:induction false} AddsUpBatch(l: Ledger, before: seq<Count>, second: nat, counters: seq<Count>)
    requires InOrderBelow(before + counters, WORD - 1) && second < |l.history|
    requires l.accounts == TakeAll(NO_ACCOUNTS, before) && AddsUp(l)
    ensures AddsUp(TakeAllIn(l, second, counters)) && |TakeAllIn(l, second, counters).history| == |l.history|
    decreases |counters|
  {
    hide AddsUp, TakeIn, TakeAll, Accurate;
    if counters == [] {
    } else {
      var front, c := counters[..|counters| - 1], counters[|counters| - 1];
      assert before + counters == (before + front) + [c];
      InOrderPrefix(before + front, before + counters, WORD - 1);
      AddsUpBatch(l, before, second, front);
      AccountsOf(l, second, front);
      TakeAllConcat(NO_ACCOUNTS, before, front);
      InOrder(before + front);
      ExpectedNext(TakeAllIn(l, second, front).accounts, before + front, c);
      AddsUpOne(TakeAllIn(l, second, front), second, c);
    }
  }

  lemma ExpectedNext(a: Accounts, counters: seq<Count>, c: Count)
    requires Accurate(a, counters) && InOrderBelow(counters + [c], WORD - 1)
    ensures a.samples + a.missed == a.expected <= c && c + 1 < WORD
  {
    IncreasingOne(counters, c);
    assert (counters + [c])[|counters|] == c;
  }

  /** In every batch, in a second that is kept, the seconds add up to the totals. */
  lemma {:induction false} AddsUpAll(l: Ledger, batches: seq<Batch>)
    requires l.accounts == NO_ACCOUNTS && AddsUp(l) && InOrderBelow(ReceivedIn(batches), WORD - 1)
    requires forall k :: 0 <= k < |batches| ==> batches[k].second < |l.history|
    ensures AddsUp(ReadAll(l, batches)) && |ReadAll(l, batches).history| == |l.history|
    decreases |batches|
  {
    hide AddsUp, TakeAllIn, TakeAll, Received;
    if batches != [] {
      var front, last := batches[..|batches| - 1], batches[|batches| - 1];
      InOrderPrefix(ReceivedIn(front), ReceivedIn(batches), WORD - 1);
      AddsUpAll(l, front);
      TotalsOf(l, front);
      AddsUpBatch(ReadAll(l, front), ReceivedIn(front), last.second, Received(last.samples));
    }
  }

  // ---- What each second says ----

  /** The samples received in second `k`. */
  ghost function SamplesIn(batches: seq<Batch>, k: nat): nat {
    if batches == [] then 0
    else
      var last := batches[|batches| - 1];
      SamplesIn(batches[..|batches| - 1], k) + if last.second == k then |Received(last.samples)| else 0
  }

  /** How far the samples received fall behind the counters. */
  ghost function Behind(counters: seq<Count>): int {
    Next(counters) - |counters|
  }

  /** The samples found missing in second `k`. */
  ghost function MissedIn(batches: seq<Batch>, k: nat): int {
    if batches == [] then 0
    else
      var front, last := batches[..|batches| - 1], batches[|batches| - 1];
      MissedIn(front, k) + if last.second == k then Behind(ReceivedIn(batches)) - Behind(ReceivedIn(front)) else 0
  }

  /** No second has more than the totals. */
  ghost predicate Bounded(l: Ledger, k: nat)
    requires k < |l.history|
  {
    l.history[k].samples <= l.accounts.samples && l.history[k].missed <= l.accounts.missed
  }

  lemma SlotOne(l: Ledger, second: nat, c: Count, k: nat)
    requires k < |l.history| && Bounded(l, k) && c + 1 < WORD
    requires l.accounts.samples + l.accounts.missed == l.accounts.expected <= c
    ensures var l' := TakeIn(l, second, c);
      && |l'.history| == |l.history| && Bounded(l', k)
      && l'.history[k].samples == l.history[k].samples + (if second == k then 1 else 0)
      && l'.history[k].missed == l.history[k].missed + (if second == k then c - l.accounts.expected else 0)
  {
    TakeInOrder(l.accounts, c);
    NoWrap(l.history[k].samples, 1);
    NoWrap(l.history[k].missed, Gap(l.accounts, c));
  }

  lemma {:induction false} SlotBatch(l: Ledger, before: seq<Count>, second: nat, counters: seq<Count>, k: nat)
    requires InOrderBelow(before + counters, WORD - 1) && k < |l.history| && Bounded(l, k)
    requires l.accounts == TakeAll(NO_ACCOUNTS, before)
    ensures var l' := TakeAllIn(l, second, counters);
      && |l'.history| == |l.history| && Bounded(l', k)
      && l'.history[k].samples == l.history[k].samples + (if second == k then |counters| else 0)
      && l'.history[k].missed
           == l.history[k].missed + (if second == k then Behind(before + counters) - Behind(before) else 0)
    decreases |counters|
  {
    hide TakeIn, TakeAll, Accurate, Bounded, Next;
    if counters == [] {
      assert before + counters == before;
    } else {
      var front, c := counters[..|counters| - 1], counters[|counters| - 1];
      assert before + counters == (before + front) + [c];
      InOrderPrefix(before + front, before + counters, WORD - 1);
      SlotBatch(l, before, second, front, k);
      AccountsOf(l, second, front);
      TakeAllConcat(NO_ACCOUNTS, before, front);
      InOrder(before + front);
      ExpectedNext(TakeAllIn(l, second, front).accounts, before + front, c);
      SlotOne(TakeAllIn(l, second, front), second, c, k);
      BehindOne(TakeAllIn(l, second, front).accounts, before + front, c);
    }
  }

  lemma BehindOne(a: Accounts, counters: seq<Count>, c: Count)
    requires Accurate(a, counters)
    ensures Behind(counters + [c]) == Behind(counters) + c - a.expected
  {
  }

  /** Every second that is kept has the samples received in it and those found missing in it. */
  lemma {:induction false} SecondsSay(l: Ledger, batches: seq<Batch>, k: nat)
    requires l.accounts == NO_ACCOUNTS && InOrderBelow(ReceivedIn(batches), WORD - 1)
    requires k < |l.history| && l.history[k] == Slot(0, 0)
    ensures var l' := ReadAll(l, batches);
      && |l'.history| == |l.history| && Bounded(l', k)
      && l'.history[k].samples == SamplesIn(batches, k) && l'.history[k].missed == MissedIn(batches, k)
    decreases |batches|
  {
    hide TakeAllIn, TakeAll, Received, Behind;
    if batches != [] {
      var front, last := batches[..|batches| - 1], batches[|batches| - 1];
      InOrderPrefix(ReceivedIn(front), ReceivedIn(batches), WORD - 1);
      SecondsSay(l, front, k);
      TotalsOf(l, front);
      SlotBatch(ReadAll(l, front), ReceivedIn(front), last.second, Received(last.samples), k);
    }
  }

  /**
    A whole test: whatever writes time out, whatever samples are lost, and in whatever batches and
    seconds the rest is taken, the totals are accurate after the samples received so far; and as
    long as the seconds are kept, they add up to the totals.
   */
  lemma LossAccounted(outcomes: seq<Outcome>, arrives: seq<bool>, batches: seq<Batch>, l: Ledger)
    requires |arrives| == Written(outcomes) < WORD
    requires ReceivedIn(batches) <= Delivered(Counters(Written(outcomes)), arrives)
    requires l.accounts == NO_ACCOUNTS && |l.history| == MAX_HISTORY
    requires forall i :: 0 <= i < MAX_HISTORY ==> l.history[i] == Slot(0, 0)
    ensures Accurate(ReadAll(l, batches).accounts, ReceivedIn(batches))
    ensures (forall k :: 0 <= k < |batches| ==> batches[k].second < MAX_HISTORY) ==> AddsUp(ReadAll(l, batches))
  {
    hide TakeAll, ReadAll, ReceivedIn, Delivered, Counters, Accurate;
    var n := Written(outcomes);
    DeliveredCounters(n, arrives);
    InOrderPrefix(ReceivedIn(batches), Delivered(Counters(n), arrives), n);
    InOrder(ReceivedIn(batches));
    TotalsOf(l, batches);
    SumsNone(l.history);
    if forall k :: 0 <= k < |batches| ==> batches[k].second < MAX_HISTORY {
      AddsUpAll(l, batches);
    }
  }

  lemma DeliveredCounters(n: nat, arrives: seq<bool>)
    requires |arrives| == n < WORD
    ensures InOrderBelow(Delivered(Counters(n), arrives), n)
  {
    assert forall i :: 0 <= i < n ==> Counters(n)[i] == i;
    DeliveredIncreasing(Counters(n), arrives);
    DeliveredIn(Counters(n), arrives);
    var d := Delivered(Counters(n), arrives);
    forall i | 0 <= i < |d| ensures d[i] < n {
      assert d[i] in Counters(n);
    }
  }

  ghost predicate InOrderBelow(counters: seq<Count>, n: nat) {
    Increasing(counters) && forall i :: 0 <= i < |counters| ==> counters[i] < n
  }

  lemma InOrderPrefix(r: seq<Count>, d: seq<Count>, n: nat)
    requires r <= d && InOrderBelow(d, n)
    ensures InOrderBelow(r, n)
  {
    forall i, j | 0 <= i < j < |r| ensures r[i] < r[j] {
      assert d[i] < d[j];
    }
  }

  /** A sample is reported incorrect if and only if some sample came after a later one or twice. */
  lemma {:induction false} IncorrectIff(counters: seq<Count>)
    requires forall i :: 0 <= i < |counters| ==> counters[i] < WORD - 1
    ensures Incorrect in TakeAll(NO_ACCOUNTS, counters).reports <==> !Increasing(counters)
    ensures TakeAll(NO_ACCOUNTS, counters).expected == Next(counters)
  {
    if counters != [] {
      var front, last := counters[..|counters| - 1], counters[|counters| - 1];
      IncorrectIff(front);
      IncreasingOne(front, last);
      IncorrectOne(TakeAll(NO_ACCOUNTS, front), last);
      assert counters == front + [last];
      hide Take, Increasing;
    }
  }

  lemma IncorrectOne(a: Accounts, c: Count)
    requires c < WORD - 1
    ensures Incorrect in Take(a, c).reports <==> Incorrect in a.reports || c < a.expected
    ensures Take(a, c).expected == c + 1
  {
  }

  lemma IncreasingOne(front: seq<Count>, last: Count)
    ensures Increasing(front + [last]) <==> Increasing(front) && Next(front) <= last
  {
    var all := front + [last];
    if Increasing(all) {
      forall i, j | 0 <= i < j < |front| ensures front[i] < front[j] {
        assert all[i] < all[j];
      }
      assert front != [] ==> all[|front| - 1] < all[|front|];
    }
    if Increasing(front) && Next(front) <= last {
      forall i, j | 0 <= i < j < |all| ensures all[i] < all[j] {
        if j == |front| && i < |front| - 1 {
          assert front[i] < front[|front| - 1];
        }
      }
    }
  }
}
