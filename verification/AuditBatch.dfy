/**
 * The batch of access-audit records: a record of a recognised application protocol replaces a raw TCP or UDP
 * record of the same connection, in place, and repeated records are dropped.
 */
module AuditBatch {
  import opened Wire

  datatype Key = Key(username: string, groupName: string, protocol: byte, src: string, dst: string,
                     srcPort: uint16, dstPort: uint16)

  /** A record; what merging does not look at is its time. */
  datatype Audit = Audit(key: Key, accessProto: nat, info: string, at: int)

  const UDP := 1
  const TCP := 2

  predicate IsRaw(a: Audit) {
    a.accessProto == TCP || a.accessProto == UDP
  }

  /** Two infos are the same up to case if they fold to the same text. */
  predicate Same(fold: string -> string, a: Audit, b: Audit) {
    a.accessProto == b.accessProto && fold(a.info) == fold(b.info)
  }

  // ----- what one record does to the batch

  function Appended(fold: string -> string, logs: seq<Audit>, a: Audit): seq<Audit>
    decreases |logs|
  {
    if logs == [] then [a]
    else
      var c := logs[0];
      if c.key != a.key then [c] + Appended(fold, logs[1..], a)
      else if IsRaw(c) && !IsRaw(a) then [a] + logs[1..]
      else if (!IsRaw(c) && IsRaw(a)) || Same(fold, c, a) then logs
      else [c] + Appended(fold, logs[1..], a)
  }

  class LogBatch {
    const fold: string -> string
    var logs: seq<Audit>

    constructor (fold: string -> string)
      ensures this.fold == fold && logs == []
    {
      this.fold := fold;
      logs := [];
    }

    method AppendAudit(incoming: Audit)
      modifies this
      ensures logs == Appended(fold, old(logs), incoming)
    {
      var i := 0;
      while i < |logs|
        invariant i <= |logs| && logs == old(logs)
        invariant Appended(fold, logs, incoming) == logs[..i] + Appended(fold, logs[i..], incoming)
        decreases |logs| - i
      {
        var current := logs[i];
        SplitAt(logs, i);
        if current.key == incoming.key {
          if IsRaw(current) && !IsRaw(incoming) {
            logs := logs[i := incoming];
            return;
          }
          if !IsRaw(current) && IsRaw(incoming) {
            return;
          }
          if current.accessProto == incoming.accessProto && fold(current.info) == fold(incoming.info) {
            return;
          }
        }
        i := i + 1;
      }
      logs := logs + [incoming];
    }

    method Reset()
      modifies this
      ensures logs == []
    {
      logs := [];
    }
  }

  lemma {:induction false} SplitAt(logs: seq<Audit>, i: nat)
    requires i < |logs|
    ensures logs == logs[..i] + logs[i..] && logs[..i] + [logs[i]] == logs[..i + 1]
    ensures logs[i..] == [logs[i]] + logs[i + 1..] && logs[i..][1..] == logs[i + 1..]
    ensures forall a :: logs[i := a] == logs[..i] + ([a] + logs[i + 1..])
    ensures forall rest: seq<Audit> :: logs[..i] + ([logs[i]] + rest) == logs[..i + 1] + rest
  {
    forall a
      ensures logs[i := a] == logs[..i] + ([a] + logs[i + 1..])
    {
      ReplacedAt(logs, i, a);
    }
    forall rest: seq<Audit>
      ensures logs[..i] + ([logs[i]] + rest) == logs[..i + 1] + rest
    {
      MovedOver(logs, i, rest);
    }
  }

  lemma {:induction false} ReplacedAt(logs: seq<Audit>, i: nat, a: Audit)
    requires i < |logs|
    ensures logs[i := a] == logs[..i] + ([a] + logs[i + 1..])
  {
  }

  lemma {:induction false} MovedOver(logs: seq<Audit>, i: nat, rest: seq<Audit>)
    requires i < |logs|
    ensures logs[..i] + ([logs[i]] + rest) == logs[..i + 1] + rest
  {
  }

  /** The batch after these records. */
  function Batch(fold: string -> string, ins: seq<Audit>): seq<Audit> {
    if ins == [] then [] else Appended(fold, Batch(fold, ins[..|ins| - 1]), ins[|ins| - 1])
  }

  // ----- one connection at a time

  /** The records of one connection. */
  function Of(logs: seq<Audit>, k: Key): seq<Audit> {
    if logs == [] then [] else (if logs[0].key == k then [logs[0]] else []) + Of(logs[1..], k)
  }

  lemma {:induction false} OfCons(c: Audit, rest: seq<Audit>, k: Key)
    ensures Of([c] + rest, k) == (if c.key == k then [c] else []) + Of(rest, k)
  {
  }

  lemma {:induction false} OfSnoc(logs: seq<Audit>, a: Audit, k: Key)
    ensures Of(logs + [a], k) == Of(logs, k) + if a.key == k then [a] else []
    decreases |logs|
  {
    if logs == [] {
      assert [] + [a] == [a] + [];
      OfCons(a, [], k);
    } else {
      OfSnoc(logs[1..], a, k);
      assert logs + [a] == [logs[0]] + (logs[1..] + [a]);
      OfCons(logs[0], logs[1..] + [a], k);
    }
  }

  lemma {:induction false} AppendedCons(fold: string -> string, c: Audit, rest: seq<Audit>, a: Audit)
    ensures Appended(fold, [c] + rest, a) ==
            if c.key != a.key then [c] + Appended(fold, rest, a)
            else if IsRaw(c) && !IsRaw(a) then [a] + rest
            else if (!IsRaw(c) && IsRaw(a)) || Same(fold, c, a) then [c] + rest
            else [c] + Appended(fold, rest, a)
  {
  }

  /** A record changes only its own connection's records, as if there were no others. */
  lemma {:induction false} AppendedOf(fold: string -> string, logs: seq<Audit>, a: Audit, k: Key)
    ensures Of(Appended(fold, logs, a), k)
         == if a.key == k then Appended(fold, Of(logs, k), a) else Of(logs, k)
    decreases |logs|
  {
    if logs == [] {
      assert [a] == [a] + [];
      OfCons(a, [], k);
    } else {
      var c, rest := logs[0], logs[1..];
      assert logs == [c] + rest;
      AppendedOf(fold, rest, a, k);
      AppendedCons(fold, c, rest, a);
      OfCons(c, rest, k);
      OfCons(a, rest, k);
      OfCons(c, Appended(fold, rest, a), k);
      AppendedCons(fold, c, Of(rest, k), a);
      assert [] + Of(rest, k) == Of(rest, k);
      assert [] + Of(Appended(fold, rest, a), k) == Of(Appended(fold, rest, a), k);
    }
  }

  // ----- the law

  ghost predicate Known(fold: string -> string, s: seq<Audit>, a: Audit) {
    exists b :: b in s && Same(fold, b, a)
  }

  /** The record, unless there is one like it. */
  ghost function AddNew(fold: string -> string, s: seq<Audit>, a: Audit): seq<Audit> {
    if Known(fold, s, a) then s else s + [a]
  }

  /** The different application records, in order of arrival. */
  ghost function Apps(fold: string -> string, ins: seq<Audit>): seq<Audit> {
    if ins == [] then []
    else
      var n := |ins| - 1;
      if IsRaw(ins[n]) then Apps(fold, ins[..n]) else AddNew(fold, Apps(fold, ins[..n]), ins[n])
  }

  /** The different raw records before the first application record. */
  ghost function RawsBefore(fold: string -> string, ins: seq<Audit>): seq<Audit> {
    if ins == [] then []
    else
      var n := |ins| - 1;
      if IsRaw(ins[n]) && Apps(fold, ins[..n]) == [] then AddNew(fold, RawsBefore(fold, ins[..n]), ins[n])
      else RawsBefore(fold, ins[..n])
  }

  function Behind(s: seq<Audit>, n: nat): seq<Audit> {
    if n <= |s| then s[n..] else []
  }

  /** What is left of one connection's records. */
  ghost function Merged(fold: string -> string, ins: seq<Audit>): seq<Audit> {
    Apps(fold, ins) + Behind(RawsBefore(fold, ins), |Apps(fold, ins)|)
  }

  ghost predicate AllApps(s: seq<Audit>, k: Key) {
    forall a <- s :: a.key == k && !IsRaw(a)
  }

  ghost predicate AllRaw(s: seq<Audit>, k: Key) {
    forall a <- s :: a.key == k && IsRaw(a)
  }

  /** Pairwise different. */
  ghost predicate Different(fold: string -> string, s: seq<Audit>) {
    forall i, j :: 0 <= i < j < |s| ==> !Same(fold, s[i], s[j])
  }

  lemma {:induction false} AddNewKeeps(fold: string -> string, s: seq<Audit>, a: Audit)
    requires Different(fold, s)
    ensures Different(fold, AddNew(fold, s, a)) && Known(fold, AddNew(fold, s, a), a)
    ensures forall b <- AddNew(fold, s, a) :: b in s || b == a
    ensures forall b :: Known(fold, s, b) ==> Known(fold, AddNew(fold, s, a), b)
  {
    var t := AddNew(fold, s, a);
    if !Known(fold, s, a) {
      assert t[|s|] == a && Same(fold, a, a);
      forall i, j | 0 <= i < j < |t|
        ensures !Same(fold, t[i], t[j])
      {
        assert t[i] in s;
      }
      forall b | Known(fold, s, b)
        ensures Known(fold, t, b)
      {
        var c :| c in s && Same(fold, c, b);
        assert c in t;
      }
    }
  }

  lemma {:induction false} Parts(fold: string -> string, ins: seq<Audit>, k: Key)
    requires forall a <- ins :: a.key == k
    ensures AllApps(Apps(fold, ins), k) && AllRaw(RawsBefore(fold, ins), k)
    ensures Different(fold, Apps(fold, ins)) && Different(fold, RawsBefore(fold, ins))
    decreases |ins|
  {
    if ins != [] {
      var n := |ins| - 1;
      assert ins[n] in ins && forall a <- ins[..n] :: a in ins;
      Parts(fold, ins[..n], k);
      AddNewKeeps(fold, Apps(fold, ins[..n]), ins[n]);
      AddNewKeeps(fold, RawsBefore(fold, ins[..n]), ins[n]);
    }
  }

  lemma {:induction false} KnownCons(fold: string -> string, c: Audit, rest: seq<Audit>, a: Audit)
    ensures Known(fold, [c] + rest, a) <==> Same(fold, c, a) || Known(fold, rest, a)
  {
  }

  lemma {:induction false} Concat3(a: seq<Audit>, b: seq<Audit>, c: seq<Audit>)
    ensures (a + b) + c == a + (b + c)
  {
  }

  /** A raw record finds its like among raw records, or goes behind them. */
  lemma {:induction false} AppendRaw(fold: string -> string, raws: seq<Audit>, a: Audit)
    requires AllRaw(raws, a.key) && IsRaw(a)
    ensures Appended(fold, raws, a) == AddNew(fold, raws, a)
    decreases |raws|
  {
    if raws != [] {
      var c, rest := raws[0], raws[1..];
      assert c in raws && raws == [c] + rest && forall b <- rest :: b in raws;
      AppendedCons(fold, c, rest, a);
      AppendRaw(fold, rest, a);
      KnownCons(fold, c, rest, a);
      Concat3([c], rest, [a]);
    }
  }

  /** Where the first raw record is replaced, or the record goes last. */
  lemma {:induction false} ReplaceFirst(fold: string -> string, raws: seq<Audit>, a: Audit)
    requires AllRaw(raws, a.key) && !IsRaw(a)
    ensures Appended(fold, raws, a) == [a] + Behind(raws, 1)
  {
  }

  /** An application record finds its like among application records, or replaces the first raw record, or goes last. */
  lemma {:induction false} AppendApp(fold: string -> string, apps: seq<Audit>, raws: seq<Audit>, a: Audit)
    requires AllApps(apps, a.key) && AllRaw(raws, a.key) && !IsRaw(a)
    ensures Appended(fold, apps + raws, a)
         == if Known(fold, apps, a) then apps + raws else apps + ([a] + Behind(raws, 1))
    decreases |apps|
  {
    if apps == [] {
      ReplaceFirst(fold, raws, a);
      assert apps + raws == raws;
    } else {
      var c, rest := apps[0], apps[1..];
      assert c in apps && apps == [c] + rest && forall b <- rest :: b in apps;
      Concat3([c], rest, raws);
      AppendedCons(fold, c, rest + raws, a);
      AppendApp(fold, rest, raws, a);
      KnownCons(fold, c, rest, a);
      Concat3([c], rest, [a] + Behind(raws, 1));
    }
  }

  lemma {:induction false} BehindMore(s: seq<Audit>, n: nat)
    ensures Behind(Behind(s, n), 1) == Behind(s, n + 1)
    ensures forall a <- Behind(s, n) :: a in s
  {
  }

  lemma {:induction false} AppsSnoc(fold: string -> string, ins: seq<Audit>, a: Audit)
    ensures Apps(fold, ins + [a]) == if IsRaw(a) then Apps(fold, ins) else AddNew(fold, Apps(fold, ins), a)
    ensures RawsBefore(fold, ins + [a]) ==
            if IsRaw(a) && Apps(fold, ins) == [] then AddNew(fold, RawsBefore(fold, ins), a) else RawsBefore(fold, ins)
  {
  }

  lemma {:induction false} RawNext(fold: string -> string, apps: seq<Audit>, raws: seq<Audit>, a: Audit)
    requires AllApps(apps, a.key) && AllRaw(raws, a.key) && IsRaw(a)
    ensures Appended(fold, apps + Behind(raws, |apps|), a)
         == if apps == [] then AddNew(fold, raws, a) else apps + Behind(raws, |apps|)
  {
    var rest := Behind(raws, |apps|);
    if apps == [] {
      assert apps + rest == raws;
      AppendRaw(fold, raws, a);
    } else {
      assert apps[0] in apps && apps == [apps[0]] + apps[1..];
      Concat3([apps[0]], apps[1..], rest);
      AppendedCons(fold, apps[0], apps[1..] + rest, a);
    }
  }

  lemma {:induction false} AppNext(fold: string -> string, apps: seq<Audit>, raws: seq<Audit>, a: Audit)
    requires AllApps(apps, a.key) && AllRaw(raws, a.key) && !IsRaw(a)
    ensures Appended(fold, apps + Behind(raws, |apps|), a)
         == AddNew(fold, apps, a) + Behind(raws, |AddNew(fold, apps, a)|)
  {
    BehindMore(raws, |apps|);
    AppendApp(fold, apps, Behind(raws, |apps|), a);
    Concat3(apps, [a], Behind(raws, |apps| + 1));
  }

  /** One more record of a connection. */
  lemma {:induction false} MergedNext(fold: string -> string, ins: seq<Audit>, a: Audit)
    requires forall b <- ins :: b.key == a.key
    ensures Appended(fold, Merged(fold, ins), a) == Merged(fold, ins + [a])
  {
    var apps, raws := Apps(fold, ins), RawsBefore(fold, ins);
    Parts(fold, ins, a.key);
    AppsSnoc(fold, ins, a);
    if IsRaw(a) {
      RawNext(fold, apps, raws, a);
      assert apps == [] ==> apps + Behind(AddNew(fold, raws, a), 0) == AddNew(fold, raws, a);
    } else {
      AppNext(fold, apps, raws, a);
    }
  }

  lemma {:induction false} OfHasKey(logs: seq<Audit>, k: Key)
    ensures forall a <- Of(logs, k) :: a.key == k && a in logs
    ensures forall a <- logs :: a.key == k ==> a in Of(logs, k)
    decreases |logs|
  {
    if logs != [] {
      OfHasKey(logs[1..], k);
      assert logs == [logs[0]] + logs[1..];
    }
  }

  /**
   * Whatever else is in the batch, a connection's records are its different application records in order, and
   * behind them, of the different raw records that came before the first of these, those not replaced.
   */
  lemma {:induction false} BatchLaw(fold: string -> string, ins: seq<Audit>, k: Key)
    ensures Of(Batch(fold, ins), k) == Merged(fold, Of(ins, k))
    decreases |ins|
  {
    if ins != [] {
      var n := |ins| - 1;
      var init, a := ins[..n], ins[n];
      assert ins == init + [a];
      BatchLaw(fold, init, k);
      OfSnoc(init, a, k);
      AppendedOf(fold, Batch(fold, init), a, k);
      if a.key == k {
        OfHasKey(init, k);
        MergedNext(fold, Of(init, k), a);
      } else {
        assert Of(init, k) + [] == Of(init, k);
      }
    }
  }

  /** There are as many as the larger number: of raw records before the first application record, or of these. */
  lemma {:induction false} BatchCount(fold: string -> string, ins: seq<Audit>, k: Key)
    ensures var apps, raws := |Apps(fold, Of(ins, k))|, |RawsBefore(fold, Of(ins, k))|;
            |Of(Batch(fold, ins), k)| == if apps >= raws then apps else raws
  {
    BatchLaw(fold, ins, k);
  }

  /** No two records of a connection are the same up to case, and application records come first. */
  lemma {:induction false} BatchDifferent(fold: string -> string, ins: seq<Audit>, k: Key)
    ensures Different(fold, Of(Batch(fold, ins), k))
    ensures var logs := Of(Batch(fold, ins), k);
            forall i, j :: 0 <= i < j < |logs| && IsRaw(logs[i]) ==> IsRaw(logs[j])
  {
    var apps, raws := Apps(fold, Of(ins, k)), RawsBefore(fold, Of(ins, k));
    var rest := Behind(raws, |apps|);
    OfHasKey(ins, k);
    Parts(fold, Of(ins, k), k);
    BatchLaw(fold, ins, k);
    BehindMore(raws, |apps|);
    var logs := apps + rest;
    forall i | 0 <= i < |logs|
      ensures IsRaw(logs[i]) <==> i >= |apps|
    {
      assert if i < |apps| then logs[i] in apps else logs[i] in rest;
    }
    assert Different(fold, rest);
    assert Different(fold, logs);
  }

  lemma {:induction false} AppsKnown(fold: string -> string, ins: seq<Audit>, a: Audit, k: Key)
    requires a in ins && !IsRaw(a) && forall b <- ins :: b.key == k
    ensures Known(fold, Apps(fold, ins), a)
    decreases |ins|
  {
    var n := |ins| - 1;
    assert forall b <- ins[..n] :: b in ins;
    Parts(fold, ins[..n], k);
    AddNewKeeps(fold, Apps(fold, ins[..n]), ins[n]);
    if a != ins[n] {
      assert a in ins[..n];
      AppsKnown(fold, ins[..n], a, k);
    }
  }

  /** No application record is lost: for each there is one like it in the batch. */
  lemma {:induction false} NoAppLost(fold: string -> string, ins: seq<Audit>, a: Audit)
    requires a in ins && !IsRaw(a)
    ensures exists b :: b in Batch(fold, ins) && b.key == a.key && Same(fold, b, a)
  {
    var mine := Of(ins, a.key);
    OfHasKey(ins, a.key);
    AppsKnown(fold, mine, a, a.key);
    var b :| b in Apps(fold, mine) && Same(fold, b, a);
    BatchLaw(fold, ins, a.key);
    assert b in Merged(fold, mine);
    OfHasKey(Batch(fold, ins), a.key);
  }
}
