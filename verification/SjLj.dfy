/**
 Setjmp/longjmp exceptions: the chain of registered function contexts, the call-site table indexed
 by the number a function has stored in its context, and the two phases that leave the chain cut
 down to the context that control is transferred to.
 */
module SjLj {
  import opened Common
  import opened Bits
  import opened Leb128
  import opened EncodedPointers
  import CallSites
  import opened Personality
  import ExceptionTables

  // ----- the call-site table -----

  /** A record of the table: index of the landing pad and of the first action. */
  datatype Pair = Pair(pad: nat, action: nat)

  function PairAt(mem: seq<byte>, p: nat): Option<(Pair, nat)> {
    match Unsigned128(mem, p)
    case None => None
    case Some(pad) =>
      match Unsigned128(mem, pad.next)
      case None => None
      case Some(action) => Some((Pair(pad.value, action.value), action.next))
  }

  /** The records from p on are these, from the k-th on. */
  ghost predicate PairsFrom(mem: seq<byte>, p: nat, pairs: seq<Pair>, k: nat)
    decreases |pairs| - k
  {
    k < |pairs| ==>
      && PairAt(mem, p).Some? && PairAt(mem, p).value.0 == pairs[k]
      && PairsFrom(mem, PairAt(mem, p).value.1, pairs, k + 1)
  }

  function PairsBytes(pairs: seq<Pair>): seq<byte> {
    if pairs == [] then [] else Encode(pairs[0].pad) + (Encode(pairs[0].action) + PairsBytes(pairs[1..]))
  }

  /** A table of any pairs, written one after the other, is decoded to those pairs. */
  lemma {:induction false} PairsReadBack(mem: seq<byte>, p: nat, pairs: seq<Pair>, k: nat)
    requires k <= |pairs| && Holds(mem, p, PairsBytes(pairs[k..]))
    requires forall i :: 0 <= i < |pairs| ==> pairs[i].pad < Pow2(WORD_BITS) && pairs[i].action < Pow2(WORD_BITS)
    ensures PairsFrom(mem, p, pairs, k)
    decreases |pairs| - k
  {
    hide Holds;
    hide Unsigned128;
    hide Encode;
    if k < |pairs| {
      var pad, action, rest := pairs[k].pad, pairs[k].action, pairs[k + 1..];
      assert pairs[k..][0] == pairs[k] && pairs[k..][1..] == rest;
      HoldsSplit(mem, p, Encode(pad), Encode(action) + PairsBytes(rest));
      HoldsSplit(mem, p + |Encode(pad)|, Encode(action), PairsBytes(rest));
      UnsignedHeld(mem, p, pad);
      UnsignedHeld(mem, p + |Encode(pad)|, action);
      PairsReadBack(mem, p + |Encode(pad)| + |Encode(action)|, pairs, k + 1);
    }
  }

  method ReadPair(mem: seq<byte>, p: nat) returns (pad: nat, action: nat, next: nat)
    requires PairAt(mem, p).Some?
    ensures PairAt(mem, p) == Some((Pair(pad, action), next))
  {
    WordIsPow2();
    pad, next := ReadUleb128(mem, p, WORD_BITS);
    action, next := ReadUleb128(mem, next, WORD_BITS);
  }

  /** What a record says: the pad is stored off by one, so that 0 means none. */
  function Describe(region: CallSites.Region, pair: Pair): CallSites.CallSiteAction {
    CallSites.AtSite(Wrap(pair.pad + 1), if pair.action != 0 then Wrap(region.actionTable + pair.action - 1) else 0)
  }

  /** A word as the signed number the index is compared as. */
  function AsInt(w: nat): int
    requires w < WORD
  {
    if w < WORD / 2 then w else w - WORD
  }

  /** The index counts the records to be read, since they have no fixed length. */
  method GetCallSiteActionFor(mem: seq<byte>, region: CallSites.Region, callSite: nat, ghost pairs: seq<Pair>)
    returns (found: CallSites.CallSiteAction)
    requires callSite < WORD && PairsFrom(mem, region.callSiteTable, pairs, 0) && AsInt(callSite) <= |pairs|
    ensures found == if AsInt(callSite) <= 0 then CallSites.NoSite else Describe(region, pairs[callSite - 1])
  {
    hide PairAt;
    if AsInt(callSite) < 0 || callSite == 0 {
      return CallSites.NoSite;
    }
    var n, p := callSite, region.callSiteTable;
    while true
      invariant 1 <= n <= callSite && PairsFrom(mem, p, pairs, callSite - n)
      decreases n
    {
      var pad, action, next := ReadPair(mem, p);
      n, p := n - 1, next;
      if n == 0 {
        return CallSites.AtSite(Wrap(pad + 1), if action != 0 then Wrap(region.actionTable + action - 1) else 0);
      }
    }
  }

  // ----- function contexts -----

  const NO_BASES := CallSites.Bases(0, 0, 0)

  /** Only a pointer relative to its own place is relative to anything: text, data and region start at 0. */
  lemma OnlyOwnPlace(encoding: byte, p: nat, origin: nat)
    requires encoding / 16 % 8 <= 4
    ensures CallSites.IsOrigin(encoding, NO_BASES, p, origin) <==> origin == if encoding / 16 % 8 == 1 then p else 0
  {
  }

  /** What the tables of a function say. */
  datatype Tables = NoTables | Tables(region: CallSites.Region, pairs: seq<Pair>, chains: map<nat, seq<Clause>>)

  ghost predicate Stored(mem: seq<byte>, lsda: nat, t: Tables) {
    match t
    case NoTables => lsda == 0
    case Tables(region, pairs, chains) =>
      && lsda != 0 && CallSites.ParseRegion(mem, CallSites.Context(lsda, 0, false, NO_BASES)) == Some(region)
      && PairsFrom(mem, region.callSiteTable, pairs, 0)
      && forall i :: 0 <= i < |pairs| ==> EntryStored(mem, region, pairs[i], chains)
  }

  ghost predicate EntryStored(mem: seq<byte>, region: CallSites.Region, pair: Pair, chains: map<nat, seq<Clause>>) {
    var entry := Describe(region, pair).entry;
    entry != 0 ==> entry in chains && IsChain(mem, region, entry, chains[entry])
  }

  /** What is to be done in a function that has stored this index. */
  function FrameAction(ids: Ids, t: Tables, callSite: int, exc: Occurrence, forced: bool): Action {
    if t.NoTables? || callSite <= 0 || callSite > |t.pairs| then Nothing
    else
      var found := Describe(t.region, t.pairs[callSite - 1]);
      if found.pad == 0 then Nothing
      else if found.entry == 0 then Cleanup(found.pad)
      else if found.entry in t.chains then Choose(ids, t.chains[found.entry], exc, forced, found.pad)
      else Nothing
  }

  class FunctionContext {
    var prev: FunctionContext?
    var callSite: int
    var data: seq<int>
    const lsda: nat

    /** The index is an int, there are four data words, and the tables are in memory. */
    ghost predicate Ready(mem: seq<byte>, t: Tables)
      reads this
    {
      && -WORD / 2 <= callSite < WORD / 2 && |data| == 4 && Stored(mem, lsda, t)
      && (t.Tables? ==> callSite <= |t.pairs|)
    }

    method SetGR(index: nat, val: int)
      requires index < |data|
      modifies this`data
      ensures data == old(data)[index := val]
    {
      data := data[index := val];
    }

    /** One more than the stored index, as an address behind the instruction. */
    method GetIPInfo() returns (ip: nat)
      requires -WORD / 2 <= callSite < WORD / 2
      ensures ip == Wrap(callSite + 1)
    {
      return Wrap(callSite + 1);
    }

    method SetIP(val: nat)
      modifies this`callSite
      ensures callSite == AsInt(Wrap(val - 1))
    {
      callSite := AsInt(Wrap(val - 1));
    }

    /** The lookup for the index stored in this context. */
    method ActionDescription(mem: seq<byte>, ids: Ids, exc: Occurrence, forced: bool, ghost t: Tables)
      returns (action: Action)
      requires Ready(mem, t)
      ensures action == FrameAction(ids, t, callSite, exc, forced)
    {
      hide Choose;
      hide PairsFrom;
      hide CallSites.ParseRegion;
      if lsda == 0 {
        return Nothing;
      }
      var parsed := CallSites.GetRegionDescriptionFor(mem, CallSites.Context(lsda, 0, false, NO_BASES));
      var region := parsed.value;
      var ip: int := GetIPInfo();
      IndexIsKept(callSite);
      var found := GetCallSiteActionFor(mem, region, Wrap(ip - 1), t.pairs);
      if found.NoSite? {
        return Nothing;
      }
      assert EntryStored(mem, region, t.pairs[callSite - 1], t.chains);
      if found.pad == 0 {
        return Nothing;
      } else if found.entry == 0 {
        return Cleanup(found.pad);
      }
      action := WalkChain(mem, region, found.entry, ids, exc, forced, found.pad, t.chains[found.entry]);
    }

    /** The landing pad finds the exception and the handler switch value in the data words. */
    method Install(exception: nat, action: Action)
      requires |data| == 4 && !action.Nothing?
      modifies this`data, this`callSite
      ensures Installed(this, action, exception, old(data)[2], old(data)[3])
    {
      SetGR(0, exception);
      SetGR(1, FilterOf(action));
      SetIP(action.pad);
    }
  }

  /** Whether control arrives in a context for this action, at the landing pad of its table record. */
  ghost predicate Installed(fc: FunctionContext, a: Action, exception: nat, d2: int, d3: int)
    requires !a.Nothing?
    reads fc
  {
    fc.callSite == AsInt(Wrap(a.pad - 1)) && fc.data == [exception, FilterOf(a), d2, d3]
  }

  /** Taking one from what is one more gives the stored index back, negative or not. */
  lemma IndexIsKept(callSite: int)
    requires -WORD / 2 <= callSite < WORD / 2
    ensures AsInt(Wrap(Wrap(callSite + 1) - 1)) == callSite
    ensures callSite >= 0 ==> Wrap(Wrap(callSite + 1) - 1) == callSite
  {
  }

  // ----- the chain of registered contexts -----

  /** The context after the i-th. */
  ghost function Next(frames: seq<FunctionContext>, i: int): FunctionContext?
    requires -1 <= i < |frames|
  {
    if i + 1 < |frames| then frames[i + 1] else null
  }

  /** From fc on, following prev, there are exactly these contexts. */
  ghost predicate Linked(fc: FunctionContext?, frames: seq<FunctionContext>)
    reads frames`prev
  {
    && Distinct(frames) && fc == Next(frames, -1)
    && forall i :: 0 <= i < |frames| ==> frames[i].prev == Next(frames, i)
  }

  lemma LinkedSuffix(fc: FunctionContext?, frames: seq<FunctionContext>, k: nat)
    requires Linked(fc, frames) && k <= |frames|
    ensures Linked(Next(frames, k - 1), frames[k..])
  {
    var rest := frames[k..];
    assert Next(rest, -1) == Next(frames, k - 1);
    forall i | 0 <= i < |rest|
      ensures rest[i].prev == Next(rest, i)
    {
      assert rest[i] == frames[k + i] && Next(rest, i) == Next(frames, k + i);
    }
  }

  lemma LinkedMore(fc: FunctionContext, frames: seq<FunctionContext>)
    requires fc !in frames && Linked(fc.prev, frames)
    ensures Linked(fc, [fc] + frames)
  {
    var more := [fc] + frames;
    forall i | 0 <= i < |more|
      ensures more[i].prev == Next(more, i)
    {
      if i > 0 {
        assert more[i] == frames[i - 1] && Next(more, i) == Next(frames, i - 1);
      }
    }
  }

  ghost predicate AllReady(mem: seq<byte>, frames: seq<FunctionContext>, tables: seq<Tables>)
    reads frames
  {
    |tables| == |frames| && forall i :: 0 <= i < |frames| ==> frames[i].Ready(mem, tables[i])
  }

  ghost function FrameActions(ids: Ids, frames: seq<FunctionContext>, tables: seq<Tables>, exc: Occurrence,
                              forced: bool): (r: seq<Action>)
    requires |tables| == |frames|
    reads frames
    ensures |r| == |frames|
    ensures forall i :: 0 <= i < |r| ==> r[i] == FrameAction(ids, tables[i], frames[i].callSite, exc, forced)
  {
    seq(|frames|, i requires 0 <= i < |frames|
      reads frames => FrameAction(ids, tables[i], frames[i].callSite, exc, forced))
  }

  ghost predicate HasHandler(actions: seq<Action>) {
    exists i :: 0 <= i < |actions| && actions[i].Handler?
  }

  ghost predicate FirstToDo(actions: seq<Action>, k: nat) {
    k < |actions| && !actions[k].Nothing? && forall i :: 0 <= i < k ==> actions[i].Nothing?
  }

  lemma StartOf(start: FunctionContext?, frames: seq<FunctionContext>)
    requires Linked(start, frames)
    ensures start == Next(frames, -1)
  {
  }

  /** What one step along the chain relies on. */
  lemma StepOf(mem: seq<byte>, ids: Ids, exc: Occurrence, start: FunctionContext?, frames: seq<FunctionContext>,
               tables: seq<Tables>, k: nat)
    requires Linked(start, frames) && AllReady(mem, frames, tables) && k < |frames|
    ensures |tables| == |frames| && frames[k].Ready(mem, tables[k]) && frames[k].prev == Next(frames, k)
    ensures FrameActions(ids, frames, tables, exc, false)[k]
      == FrameAction(ids, tables[k], frames[k].callSite, exc, false)
  {
    hide FunctionContext.Ready;
  }

  lemma StopAt(mem: seq<byte>, start: FunctionContext?, frames: seq<FunctionContext>, tables: seq<Tables>, k: nat)
    requires Linked(start, frames) && AllReady(mem, frames, tables) && k < |frames|
    ensures Linked(frames[k], frames[k..]) && |frames[k].data| == 4
    ensures forall i :: 0 <= i < |frames| && i != k ==> frames[i] != frames[k]
  {
    LinkedSuffix(start, frames, k);
    assert frames[k].Ready(mem, tables[k]);
  }

  class Chain {
    var head: FunctionContext?

    method Register(fc: FunctionContext, ghost frames: seq<FunctionContext>)
      requires Linked(head, frames) && fc !in frames
      modifies this, fc`prev
      ensures Linked(head, [fc] + frames)
    {
      fc.prev := head;
      head := fc;
      LinkedMore(fc, frames);
    }

    /** Removes a context together with everything registered after it. */
    method Unregister(fc: FunctionContext, ghost frames: seq<FunctionContext>, ghost k: nat)
      requires Linked(head, frames) && k < |frames| && fc == frames[k]
      modifies this
      ensures Linked(head, frames[k + 1..])
    {
      LinkedSuffix(head, frames, k + 1);
      head := fc.prev;
    }

    /** The search phase; it only reads. */
    method Search(mem: seq<byte>, ids: Ids, exc: Occurrence, ghost frames: seq<FunctionContext>,
                  ghost tables: seq<Tables>)
      returns (found: bool)
      requires Linked(head, frames) && AllReady(mem, frames, tables)
      ensures found <==> HasHandler(FrameActions(ids, frames, tables, exc, false))
    {
      hide FrameAction;
      hide FunctionContext.Ready;
      ghost var actions := FrameActions(ids, frames, tables, exc, false);
      var fc := head;
      ghost var k := 0;
      while fc != null
        invariant k <= |frames| && fc == Next(frames, k - 1)
        invariant forall i :: 0 <= i < k ==> !actions[i].Handler?
        decreases |frames| - k
      {
        var action := fc.ActionDescription(mem, ids, exc, false, tables[k]);
        if action.Handler? {
          return true;
        }
        fc := fc.prev;
        k := k + 1;
      }
      return false;
    }

    /** The loop of the cleanup phase, up to the first context with something to do. */
    method Advance(mem: seq<byte>, ids: Ids, exc: Occurrence, ghost frames: seq<FunctionContext>,
                   ghost tables: seq<Tables>)
      returns (fc: FunctionContext, action: Action, ghost k: nat)
      requires Linked(head, frames) && AllReady(mem, frames, tables)
      requires HasHandler(FrameActions(ids, frames, tables, exc, false))
      modifies this
      ensures FirstToDo(FrameActions(ids, frames, tables, exc, false), k)
      ensures k < |frames| && (forall i :: 0 <= i < |frames| && i != k ==> frames[i] != frames[k])
      ensures Linked(head, frames[k..]) && !action.Nothing? && |fc.data| == 4
      ensures fc == frames[k] == head && action == FrameActions(ids, frames, tables, exc, false)[k]
    {
      hide Linked;
      hide FrameAction;
      hide FunctionContext.Ready;
      ghost var actions := FrameActions(ids, frames, tables, exc, false);
      ghost var start := head;
      StartOf(start, frames);
      hide AllReady;
      hide FrameActions;
      k := 0;
      fc := head;
      StepOf(mem, ids, exc, start, frames, tables, 0);
      action := fc.ActionDescription(mem, ids, exc, false, tables[0]);
      while action.Nothing?
        invariant k < |frames| && fc == frames[k] == head && action == actions[k]
        invariant fc.prev == Next(frames, k)
        invariant forall i :: 0 <= i < k ==> actions[i].Nothing?
        decreases |frames| - k
      {
        assert k + 1 < |frames|;
        head := fc.prev;
        fc := fc.prev;
        k := k + 1;
        StepOf(mem, ids, exc, start, frames, tables, k);
        action := fc.ActionDescription(mem, ids, exc, false, tables[k]);
      }
      StopAt(mem, start, frames, tables, k);
    }

    /** The cleanup phase: the chain is cut down and the context at its head is installed. */
    method CleanUp(mem: seq<byte>, ids: Ids, exc: Occurrence, exception: nat,
                   ghost frames: seq<FunctionContext>, ghost tables: seq<Tables>) returns (ghost k: nat)
      requires Linked(head, frames) && AllReady(mem, frames, tables)
      requires HasHandler(FrameActions(ids, frames, tables, exc, false))
      modifies this, frames
      ensures FirstToDo(old(FrameActions(ids, frames, tables, exc, false)), k)
      ensures k < |frames| && head == frames[k] && Linked(head, frames[k..])
      ensures Installed(frames[k], old(FrameActions(ids, frames, tables, exc, false))[k], exception,
                        old(frames[k].data)[2], old(frames[k].data)[3])
      ensures forall i :: 0 <= i < |frames| && i != k ==> unchanged(frames[i])
    {
      hide *;
      var fc: FunctionContext, action: Action;
      fc, action, k := Advance(mem, ids, exc, frames, tables);
      fc.Install(exception, action);
    }

    /**
     Raising an exception.  The search phase looks for a handler and changes nothing; without one,
     nothing has changed at the end.  The cleanup phase cuts the chain down to the first context
     with something to do and installs it: that context is then the innermost registered one, and
     no other context has changed.
     */
    method RaiseException(mem: seq<byte>, ids: Ids, exc: Occurrence, exception: nat,
                          ghost frames: seq<FunctionContext>, ghost tables: seq<Tables>)
  returns (handled: bool, ghost k: nat)
      requires Linked(head, frames) && AllReady(mem, frames, tables)
      modifies this, frames
      ensures handled <==> HasHandler(old(FrameActions(ids, frames, tables, exc, false)))
      ensures !handled ==> head == old(head) && forall i :: 0 <= i < |frames| ==> unchanged(frames[i])
      ensures handled ==>
        && k < |frames| && FirstToDo(old(FrameActions(ids, frames, tables, exc, false)), k)
        && head == frames[k] && Linked(head, frames[k..])
        && Installed(frames[k], old(FrameActions(ids, frames, tables, exc, false))[k], exception,
                     old(frames[k].data)[2], old(frames[k].data)[3])
        && forall i :: 0 <= i < |frames| && i != k ==> unchanged(frames[i])
    {
      var found := Search(mem, ids, exc, frames, tables);
      if !found {
        return false, 0;
      }
      k := CleanUp(mem, ids, exc, exception, frames, tables);
      return true, k;
    }
  }

  /** The index an installed context holds is the landing-pad index of the record it was found by. */
  lemma InstalledPad(ids: Ids, t: Tables, callSite: int, exc: Occurrence, forced: bool)
    requires !FrameAction(ids, t, callSite, exc, forced).Nothing?
    requires t.pairs[callSite - 1].pad < WORD
    ensures AsInt(Wrap(FrameAction(ids, t, callSite, exc, forced).pad - 1)) == AsInt(t.pairs[callSite - 1].pad)
  {
  }

  // ----- tables as they are written -----

  /** An entry of the table: the index of the landing pad, and the record its chain starts with. */
  datatype Entry = Entry(pad: nat, chain: Option<nat>)

  function PairsOf(records: seq<ExceptionTables.Record>, entries: seq<Entry>): (r: seq<Pair>)
    ensures |r| == |entries| && forall k :: 0 <= k < |r| ==>
      r[k] == Pair(entries[k].pad, ExceptionTables.ActionNumber(records, entries[k].chain))
  {
    seq(|entries|, k requires 0 <= k < |entries| =>
          Pair(entries[k].pad, ExceptionTables.ActionNumber(records, entries[k].chain)))
  }

  function ContextOf(lsda: nat): CallSites.Context {
    CallSites.Context(lsda, 0, false, NO_BASES)
  }

  /** The area of a function: these entries, the records they refer to, and the types. */
  ghost predicate LaidOut(a: ExceptionTables.Area, mem: seq<byte>, lsda: nat, base: nat, choices: seq<nat>,
                          entries: seq<Entry>) {
    && ExceptionTables.LaidOut(a, mem, ContextOf(lsda), base, choices)
    && a.table == PairsBytes(PairsOf(a.records, entries))
    && forall k :: 0 <= k < |entries| ==> GoodEntry(a.records, entries[k])
  }

  ghost predicate GoodEntry(records: seq<ExceptionTables.Record>, e: Entry) {
    && e.pad < WORD && (e.chain.Some? ==> e.chain.value < |records|)
    && ExceptionTables.ActionNumber(records, e.chain) < WORD
  }

  ghost function TablesOf(a: ExceptionTables.Area, lsda: nat, base: nat, choices: seq<nat>, entries: seq<Entry>): Tables
    requires ExceptionTables.GoodRecords(a.records, |choices|)
  {
    Tables.Tables(ExceptionTables.RegionOf(a, ContextOf(lsda), base), PairsOf(a.records, entries),
           ExceptionTables.ChainsOf(a.records, choices, ExceptionTables.ActionsAt(a, lsda), |a.records|))
  }

  lemma PairsAreRead(a: ExceptionTables.Area, mem: seq<byte>, lsda: nat, base: nat, choices: seq<nat>,
                     entries: seq<Entry>)
    requires LaidOut(a, mem, lsda, base, choices, entries)
    ensures PairsFrom(mem, ExceptionTables.TableAt(a, lsda), PairsOf(a.records, entries), 0)
  {
    hide PairsBytes;
    hide Holds;
    hide ExceptionTables.LaidOut;
    hide ExceptionTables.TableAt;
    hide ExceptionTables.ActionNumber;
    hide Pow2;
    var pairs := PairsOf(a.records, entries);
    WordIsPow2();
    ExceptionTables.PartsHeld(a, mem, ContextOf(lsda), base, choices);
    assert pairs[0..] == pairs;
    forall i | 0 <= i < |pairs|
      ensures pairs[i].pad < Pow2(WORD_BITS) && pairs[i].action < Pow2(WORD_BITS)
    {
      assert GoodEntry(a.records, entries[i]);
    }
    PairsReadBack(mem, ExceptionTables.TableAt(a, lsda), pairs, 0);
  }

  /** What an entry is read as. */
  lemma EntryIs(a: ExceptionTables.Area, lsda: nat, base: nat, e: Entry)
    requires ExceptionTables.EndOf(a, lsda) <= WORD && GoodEntry(a.records, e)
    ensures var found := Describe(ExceptionTables.RegionOf(a, ContextOf(lsda), base),
                                  Pair(e.pad, ExceptionTables.ActionNumber(a.records, e.chain)));
      && found.AtSite? && found.pad == Wrap(e.pad + 1)
      && match e.chain
         case None => found.entry == 0
         case Some(i) =>
           && found.entry != 0
           && found.entry == ExceptionTables.ActionsAt(a, lsda) + |ExceptionTables.ActionBytes(a.records, i)|
  {
    hide Wrap;
    hide ExceptionTables.ActionBytes;
    hide ExceptionTables.EndOf;
    hide ExceptionTables.ActionsAt;
    if e.chain.Some? {
      ExceptionTables.NumberIsPlace(a, ContextOf(lsda), base, e.chain.value);
    }
  }

  lemma EntryIsStored(a: ExceptionTables.Area, mem: seq<byte>, lsda: nat, base: nat, choices: seq<nat>,
                      entries: seq<Entry>, k: nat)
    requires LaidOut(a, mem, lsda, base, choices, entries) && k < |entries|
    ensures ExceptionTables.GoodRecords(a.records, |choices|)
    ensures var t := TablesOf(a, lsda, base, choices, entries); EntryStored(mem, t.region, t.pairs[k], t.chains)
  {
    hide ExceptionTables.LaidOut;
    hide PairsBytes;
    hide Describe;
    hide IsChain;
    hide ExceptionTables.ActionNumber;
    hide ExceptionTables.ActionBytes;
    hide ExceptionTables.ActionsAt;
    hide ExceptionTables.RegionOf;
    hide ExceptionTables.ChainsOf;
    hide ExceptionTables.ChainOf;
    hide ExceptionTables.GoodRecords;
    hide ExceptionTables.EndOf;
    ExceptionTables.PartsHeld(a, mem, ContextOf(lsda), base, choices);
    var e := entries[k];
    assert GoodEntry(a.records, e);
    EntryIs(a, lsda, base, e);
    if e.chain.Some? {
      ExceptionTables.ChainIsRead(a, mem, ContextOf(lsda), base, choices, e.chain.value);
    }
  }

  /** A written area stores exactly the tables it was written for. */
  lemma WrittenIsStored(a: ExceptionTables.Area, mem: seq<byte>, lsda: nat, base: nat, choices: seq<nat>,
                        entries: seq<Entry>)
    requires LaidOut(a, mem, lsda, base, choices, entries)
    ensures ExceptionTables.GoodRecords(a.records, |choices|)
    ensures Stored(mem, lsda, TablesOf(a, lsda, base, choices, entries))
  {
    hide PairsFrom;
    hide CallSites.ParseRegion;
    hide EntryStored;
    hide PairsBytes;
    hide ExceptionTables.LaidOut;
    hide ExceptionTables.TableAt;
    hide ExceptionTables.ChainsOf;
    hide ExceptionTables.ActionsAt;
    hide ExceptionTables.EndOf;
    hide ExceptionTables.GoodRecords;
    ExceptionTables.PartsHeld(a, mem, ContextOf(lsda), base, choices);
    ExceptionTables.RegionIsRead(a, mem, ContextOf(lsda), base, choices);
    PairsAreRead(a, mem, lsda, base, choices, entries);
    forall k | 0 <= k < |entries|
      ensures var t := TablesOf(a, lsda, base, choices, entries); EntryStored(mem, t.region, t.pairs[k], t.chains)
    {
      EntryIsStored(a, mem, lsda, base, choices, entries, k);
    }
  }

  /**
   What is decided for the stored index k is what its entry was written with: the clauses of exactly
   that chain, or a cleanup.  The pad is one more than the number written.
   */
  lemma IndexDecides(a: ExceptionTables.Area, mem: seq<byte>, lsda: nat, base: nat, choices: seq<nat>,
                     entries: seq<Entry>, k: nat, ids: Ids, exc: Occurrence, forced: bool)
    requires LaidOut(a, mem, lsda, base, choices, entries) && 1 <= k <= |entries|
    ensures ExceptionTables.GoodRecords(a.records, |choices|)
    ensures var e := entries[k - 1];
      var action := FrameAction(ids, TablesOf(a, lsda, base, choices, entries), k, exc, forced);
      if e.pad + 1 == WORD then action == Nothing
      else
        match e.chain
        case None => action == Cleanup(e.pad + 1)
        case Some(i) =>
          && i < |a.records|
          && action == Choose(ids, ExceptionTables.ChainOf(a.records, choices, i), exc, forced, e.pad + 1)
  {
    hide *;
    EntryIsGood(a, mem, lsda, base, choices, entries, k - 1);
    ExceptionTables.PartsHeld(a, mem, ContextOf(lsda), base, choices);
    var e, t := entries[k - 1], TablesOf(a, lsda, base, choices, entries);
    EntryIs(a, lsda, base, e);
    PadIs(e.pad);
    match e.chain {
      case None =>
        Decided(ids, t, k, exc, forced, None);
      case Some(i) =>
        ExceptionTables.ChainIsRead(a, mem, ContextOf(lsda), base, choices, i);
        ExceptionTables.IsAt(mem, t.region, t.chains,
                             ExceptionTables.ActionsAt(a, lsda) + |ExceptionTables.ActionBytes(a.records, i)|,
                             ExceptionTables.ChainOf(a.records, choices, i));
        Decided(ids, t, k, exc, forced, Some(ExceptionTables.ChainOf(a.records, choices, i)));
    }
  }

  lemma PadIs(pad: nat)
    requires pad < WORD
    ensures Wrap(pad + 1) == if pad + 1 == WORD then 0 else pad + 1
  {
  }

  lemma EntryIsGood(a: ExceptionTables.Area, mem: seq<byte>, lsda: nat, base: nat, choices: seq<nat>,
                    entries: seq<Entry>, k: nat)
    requires LaidOut(a, mem, lsda, base, choices, entries) && k < |entries|
    ensures ExceptionTables.LaidOut(a, mem, ContextOf(lsda), base, choices) && ContextOf(lsda).lsda == lsda
    ensures GoodEntry(a.records, entries[k]) && entries[k].pad < WORD
    ensures entries[k].chain.Some? ==> entries[k].chain.value < |a.records|
    ensures ExceptionTables.GoodRecords(a.records, |choices|)
    ensures var t := TablesOf(a, lsda, base, choices, entries);
      && t.Tables? && t.region == ExceptionTables.RegionOf(a, ContextOf(lsda), base) && |t.pairs| == |entries|
      && t.pairs[k] == Pair(entries[k].pad, ExceptionTables.ActionNumber(a.records, entries[k].chain))
      && t.chains == ExceptionTables.ChainsOf(a.records, choices, ExceptionTables.ActionsAt(a, lsda), |a.records|)
  {
    hide PairsBytes;
    hide ExceptionTables.LaidOut;
    hide ExceptionTables.ActionNumber;
    hide ExceptionTables.ChainsOf;
    hide ExceptionTables.RegionOf;
    hide ExceptionTables.ActionsAt;
    hide ExceptionTables.GoodRecords;
    ExceptionTables.PartsHeld(a, mem, ContextOf(lsda), base, choices);
    assert GoodEntry(a.records, entries[k]);
  }

  lemma Decided(ids: Ids, t: Tables, k: nat, exc: Occurrence, forced: bool, clauses: Option<seq<Clause>>)
    requires t.Tables? && 1 <= k <= |t.pairs| && Describe(t.region, t.pairs[k - 1]).AtSite?
    requires var entry := Describe(t.region, t.pairs[k - 1]).entry;
      match clauses
      case None => entry == 0
      case Some(chain) => entry != 0 && entry in t.chains && t.chains[entry] == chain
    ensures var pad := Describe(t.region, t.pairs[k - 1]).pad;
      FrameAction(ids, t, k, exc, forced)
      == if pad == 0 then Nothing
         else match clauses
           case None => Cleanup(pad)
           case Some(chain) => Choose(ids, chain, exc, forced, pad)
  {
    hide Choose;
    hide Describe;
  }

  /** Without a positive index, or without an area, there is nothing to do. */
  lemma NoIndexNoAction(ids: Ids, t: Tables, callSite: int, exc: Occurrence, forced: bool)
    requires t.NoTables? || callSite <= 0
    ensures FrameAction(ids, t, callSite, exc, forced) == Nothing
  {
  }
}
