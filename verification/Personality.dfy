/**
 The Ada personality routine over the bytes of the exception tables: the matching rule, the action
 chains, and what the routine answers for a frame in the search and in the cleanup phase.
 */
module Personality {
  import opened Common
  import opened Bits
  import opened Leb128
  import opened EncodedPointers
  import opened CallSites

  // ----- the matching rule -----

  /** The addresses that stand for the special choices. */
  datatype Ids = Ids(others: nat, allOthers: nat, unhandledOthers: nat, foreign: nat)

  /** A propagated exception: its identity and whether "when others" handles it, or a foreign one. */
  datatype Occurrence = Ada(id: nat, handledByOthers: bool) | Foreign

  datatype Match = NoMatch | Handled | OnlyUnhandled

  /** Everything is caught by "all others", an Ada exception by its own choice, foreign ones by two choices. */
  function IsHandledBy(ids: Ids, choice: nat, exc: Occurrence): (r: Match)
    ensures exc.Ada? ==> (r == NoMatch <==>
      choice !in {ids.allOthers, ids.unhandledOthers, exc.id} && !(choice == ids.others && exc.handledByOthers))
    ensures exc.Foreign? ==> (r == NoMatch <==> choice !in {ids.allOthers, ids.others, ids.foreign})
    ensures r == OnlyUnhandled <==> exc.Ada? && choice == ids.unhandledOthers && choice != ids.allOthers
  {
    if choice == ids.allOthers then Handled
    else
      match exc
      case Ada(id, handledByOthers) =>
        if choice == ids.unhandledOthers then OnlyUnhandled
        else if choice == id || (choice == ids.others && handledByOthers) then Handled
        else NoMatch
      case Foreign =>
        if choice == ids.others || choice == ids.foreign then Handled else NoMatch
  }

  // ----- action chains -----

  /** One record of a chain; only a positive filter has a choice. */
  datatype Clause = Clause(filter: int, choice: nat)

  function SlebAt(mem: seq<byte>, p: nat): int
    requires Readable(mem, p, WORD_BITS)
  {
    Signed(SignedValue(mem, p) % Pow2(WORD_BITS), WORD_BITS)
  }

  /** The choice a positive filter refers to, counted downwards from the base of the type table. */
  function TtypeEntry(mem: seq<byte>, r: Region, filter: int): Option<nat> {
    match SizeOfEncodedValue(r.ttypeEncoding)
    case None => None
    case Some(size) =>
      match Encoded(mem, r.ttypeEncoding, r.ttypeBase, Wrap(r.ttypeTable - filter * size)) {
        case None => None
        case Some(entry) => Some(entry.value)
      }
  }

  method GetTtypeEntryFor(mem: seq<byte>, r: Region, filter: int) returns (choice: nat)
    requires TtypeEntry(mem, r, filter).Some?
    ensures TtypeEntry(mem, r, filter) == Some(choice)
  {
    var size := SizeOfEncodedValue(r.ttypeEncoding);
    var entry := ReadEncodedValueWithBase(mem, r.ttypeEncoding, r.ttypeBase, Wrap(r.ttypeTable - filter * size.value));
    return entry.value.value;
  }

  /** The record at p: its clause, the displacement to the next record and where that is stored. */
  datatype Link = Link(clause: Clause, disp: int, dispAt: nat)

  function LinkAt(mem: seq<byte>, r: Region, p: nat): Option<Link> {
    if !Readable(mem, p, WORD_BITS) || !Readable(mem, End(mem, p).value, WORD_BITS) then None
    else
      var filter, q := SlebAt(mem, p), End(mem, p).value;
      if filter <= 0 then Some(Link(Clause(filter, 0), SlebAt(mem, q), q))
      else
        match TtypeEntry(mem, r, filter)
        case None => None
        case Some(choice) => Some(Link(Clause(filter, choice), SlebAt(mem, q), q))
  }

  /** A record written as two signed numbers is decoded to that filter and displacement. */
  lemma RecordReadsBack(mem: seq<byte>, r: Region, p: nat, filter: int, disp: int)
    requires FitsSigned(filter, WORD_BITS) && FitsSigned(disp, WORD_BITS)
    requires Holds(mem, p, EncodeSigned(filter) + EncodeSigned(disp))
    requires filter > 0 ==> TtypeEntry(mem, r, filter).Some?
    ensures LinkAt(mem, r, p)
      == Some(Link(Clause(filter, if filter > 0 then TtypeEntry(mem, r, filter).value else 0),
                disp, p + |EncodeSigned(filter)|))
  {
    hide Holds;
    hide EncodeSigned;
    hide TtypeEntry;
    hide Signed;
    hide Readable;
    hide FitsSigned;
    HoldsSplit(mem, p, EncodeSigned(filter), EncodeSigned(disp));
    SignedHeld(mem, p, filter);
    SignedHeld(mem, p + |EncodeSigned(filter)|, disp);
  }

  /** The records from p on, up to the one with displacement 0, are the clauses from k on. */
  ghost predicate IsChainFrom(mem: seq<byte>, r: Region, p: nat, clauses: seq<Clause>, k: nat)
    decreases |clauses| - k
  {
    && k < |clauses| && LinkAt(mem, r, p).Some?
    && var link := LinkAt(mem, r, p).value;
       && link.clause == clauses[k]
       && if link.disp == 0 then k + 1 == |clauses|
          else link.dispAt + link.disp >= 0 && IsChainFrom(mem, r, link.dispAt + link.disp, clauses, k + 1)
  }

  ghost predicate IsChain(mem: seq<byte>, r: Region, p: nat, clauses: seq<Clause>) {
    IsChainFrom(mem, r, p, clauses, 0)
  }

  // ----- the decision for one frame -----

  datatype Action = Nothing | Cleanup(pad: nat) | Handler(pad: nat, filter: int, onlyUnhandled: bool)

  predicate Catches(ids: Ids, c: Clause, exc: Occurrence) {
    c.filter > 0 && IsHandledBy(ids, c.choice, exc) != NoMatch
  }

  /** The position of the first clause that catches the exception. */
  function FirstCatch(ids: Ids, clauses: seq<Clause>, exc: Occurrence): (r: Option<nat>)
    ensures match r {
      case None => forall i :: 0 <= i < |clauses| ==> !Catches(ids, clauses[i], exc)
      case Some(k) => k < |clauses| && Catches(ids, clauses[k], exc) && forall i :: 0 <= i < k ==>
        !Catches(ids, clauses[i], exc)
    }
  {
    if clauses == [] then None
    else if Catches(ids, clauses[0], exc) then Some(0)
    else
      match FirstCatch(ids, clauses[1..], exc)
      case None => None
      case Some(k) => Some(k + 1)
  }

  predicate HasCleanup(clauses: seq<Clause>) {
    exists i :: 0 <= i < |clauses| && clauses[i].filter == 0
  }

  /** The first clause that catches the exception decides, unless the unwinding is forced; else a cleanup. */
  function Choose(ids: Ids, clauses: seq<Clause>, exc: Occurrence, forced: bool, pad: nat): (r: Action)
    ensures r.Handler? <==> !forced && exists i :: 0 <= i < |clauses| && Catches(ids, clauses[i], exc)
    ensures r.Handler? ==> exists k ::
      && 0 <= k < |clauses|
      && Catches(ids, clauses[k], exc) && (forall i :: 0 <= i < k ==> !Catches(ids, clauses[i], exc))
      && r == Handler(pad, clauses[k].filter, IsHandledBy(ids, clauses[k].choice, exc) == OnlyUnhandled)
    ensures r.Cleanup? <==> !r.Handler? && exists i :: 0 <= i < |clauses| && clauses[i].filter == 0
    ensures r.Cleanup? ==> r.pad == pad
  {
    var first := FirstCatch(ids, clauses, exc);
    if !forced && first.Some? then
      Handler(pad, clauses[first.value].filter, IsHandledBy(ids, clauses[first.value].choice, exc) == OnlyUnhandled)
    else if HasCleanup(clauses) then Cleanup(pad)
    else Nothing
  }

  /** What the walk has found before reaching the rest of the chain. */
  ghost predicate WalkedTo(ids: Ids, clauses: seq<Clause>, exc: Occurrence, forced: bool, k: nat, cleanup: bool)
    requires k <= |clauses|
  {
    && (!forced ==> forall i :: 0 <= i < k ==> !Catches(ids, clauses[i], exc))
    && (cleanup <==> exists i :: 0 <= i < k && clauses[i].filter == 0)
  }

  lemma WalkedAll(ids: Ids, clauses: seq<Clause>, exc: Occurrence, forced: bool, cleanup: bool, pad: nat)
    requires WalkedTo(ids, clauses, exc, forced, |clauses|, cleanup)
    ensures Choose(ids, clauses, exc, forced, pad) == if cleanup then Cleanup(pad) else Nothing
  {
  }

  lemma WalkedToCatch(ids: Ids, clauses: seq<Clause>, exc: Occurrence, k: nat, filter: int, choice: nat, cleanup: bool,
                      pad: nat)
    requires k < |clauses| && WalkedTo(ids, clauses, exc, false, k, cleanup)
    requires filter > 0 && clauses[k] == Clause(filter, choice) && IsHandledBy(ids, choice, exc) != NoMatch
    ensures Choose(ids, clauses, exc, false, pad)
      == Handler(pad, filter, IsHandledBy(ids, choice, exc) == OnlyUnhandled)
  {
    assert Catches(ids, clauses[k], exc);
    assert FirstCatch(ids, clauses, exc) == Some(k);
  }

  lemma WalkedOn(ids: Ids, clauses: seq<Clause>, exc: Occurrence, forced: bool, k: nat, filter: int, cleanup: bool)
    requires k < |clauses| && WalkedTo(ids, clauses, exc, forced, k, cleanup) && clauses[k].filter == filter
    requires forced || filter <= 0 || IsHandledBy(ids, clauses[k].choice, exc) == NoMatch
    ensures WalkedTo(ids, clauses, exc, forced, k + 1, cleanup || filter == 0)
  {
  }

  lemma ChainStart(mem: seq<byte>, r: Region, entry: nat, ids: Ids, exc: Occurrence, forced: bool, clauses: seq<Clause>)
    requires IsChain(mem, r, entry, clauses)
    ensures clauses != [] && IsChainFrom(mem, r, entry, clauses, 0) && WalkedTo(ids, clauses, exc, forced, 0, false)
  {
  }

  /** The fields of the record at p, as they are stored one after the other, and the next record. */
  lemma ChainStep(mem: seq<byte>, r: Region, p: nat, clauses: seq<Clause>, k: nat)
    requires IsChainFrom(mem, r, p, clauses, k)
    ensures k < |clauses| && Readable(mem, p, WORD_BITS) && Readable(mem, End(mem, p).value, WORD_BITS)
    ensures clauses[k].filter == Signed(SignedValue(mem, p) % Pow2(WORD_BITS), WORD_BITS)
    ensures clauses[k].filter > 0 ==> TtypeEntry(mem, r, clauses[k].filter) == Some(clauses[k].choice)
    ensures var q := End(mem, p).value;
      var disp := Signed(SignedValue(mem, q) % Pow2(WORD_BITS), WORD_BITS);
      if disp == 0 then k + 1 == |clauses|
      else k + 1 < |clauses| && q + disp >= 0 && IsChainFrom(mem, r, q + disp, clauses, k + 1)
  {
    hide Readable;
    hide TtypeEntry;
    hide Signed;
  }

  /** Reads the record at p, the next one of the chain. */
  method ReadLink(mem: seq<byte>, r: Region, p: nat, ghost clauses: seq<Clause>, ghost k: nat)
    returns (filter: int, disp: int, dispAt: nat)
    requires IsChainFrom(mem, r, p, clauses, k)
    ensures k < |clauses| && filter == clauses[k].filter
    ensures filter > 0 ==> TtypeEntry(mem, r, filter) == Some(clauses[k].choice)
    ensures if disp == 0 then k + 1 == |clauses|
            else k + 1 < |clauses| && dispAt + disp >= 0 && IsChainFrom(mem, r, dispAt + disp, clauses, k + 1)
  {
    hide *;
    ChainStep(mem, r, p, clauses, k);
    filter, dispAt := ReadSleb128(mem, p, WORD_BITS);
    var d, _ := ReadSleb128(mem, dispAt, WORD_BITS);
    disp := d;
  }

  /** Follows the chain record by record. */
  method WalkChain(mem: seq<byte>, r: Region, entry: nat, ids: Ids, exc: Occurrence, forced: bool, pad: nat,
                   ghost clauses: seq<Clause>) returns (action: Action)
    requires IsChain(mem, r, entry, clauses)
    ensures action == Choose(ids, clauses, exc, forced, pad)
  {
    hide *;
    var p: nat, cleanup := entry, false;
    ghost var k := 0;
    ChainStart(mem, r, entry, ids, exc, forced, clauses);
    while true
      invariant 0 <= k < |clauses| && IsChainFrom(mem, r, p, clauses, k)
      invariant WalkedTo(ids, clauses, exc, forced, k, cleanup)
      decreases |clauses| - k
    {
      var filter, disp, q := ReadLink(mem, r, p, clauses, k);
      if filter > 0 && !forced {
        var choice := GetTtypeEntryFor(mem, r, filter);
        var how := IsHandledBy(ids, choice, exc);
        if how != NoMatch {
          WalkedToCatch(ids, clauses, exc, k, filter, choice, cleanup, pad);
          return Handler(pad, filter, how == OnlyUnhandled);
        }
      }
      WalkedOn(ids, clauses, exc, forced, k, filter, cleanup);
      cleanup := cleanup || filter == 0;
      k := k + 1;
      if disp == 0 {
        WalkedAll(ids, clauses, exc, forced, cleanup, pad);
        return if cleanup then Cleanup(pad) else Nothing;
      }
      p := q + disp;
    }
  }

  // ----- frames -----

  /** What the tables of a frame say. */
  datatype View = NoTables | Tables(region: Region, sites: seq<Site>, chains: map<nat, seq<Clause>>)

  ghost predicate Represents(mem: seq<byte>, c: Context, v: View) {
    match v
    case NoTables => c.lsda == 0
    case Tables(region, sites, chains) =>
      && c.lsda != 0 && ParseRegion(mem, c) == Some(region)
      && Sites(mem, region.callSiteEncoding, region.callSiteTable, region.actionTable) == Some(sites)
      && WellFormed(region.base, sites)
      && forall i :: 0 <= i < |sites| ==> Described(mem, region, sites[i], chains)
  }

  ghost predicate Described(mem: seq<byte>, region: Region, s: Site, chains: map<nat, seq<Clause>>) {
    var entry := Describe(region, s).entry;
    entry != 0 ==> entry in chains && IsChain(mem, region, entry, chains[entry])
  }

  /** The record that covers the address and is not missed at the top of the address space. */
  function FindSite(base: nat, sites: seq<Site>, ip: nat): Option<Site> {
    if sites == [] then None
    else if base + sites[0].start <= ip < base + sites[0].start + sites[0].len
      && !EndsAtTop(base, sites[0]) then Some(sites[0])
    else FindSite(base, sites[1..], ip)
  }

  function FoundAt(r: Region, site: Option<Site>): CallSiteAction {
    match site
    case None => NoSite
    case Some(s) => Describe(r, s)
  }

  lemma {:induction false} FindSiteIsFullSearch(r: Region, sites: seq<Site>, ip: nat)
    ensures IsFullSearch(r, sites, ip, FoundAt(r, FindSite(r.base, sites, ip)))
    ensures FindSite(r.base, sites, ip).Some? ==> FindSite(r.base, sites, ip).value in sites
  {
    hide EndsAtTop;
    if sites != [] && !(Covers(r.base, sites[0], ip) && !EndsAtTop(r.base, sites[0])) {
      FindSiteIsFullSearch(r, sites[1..], ip);
      var found := FindSite(r.base, sites, ip);
      if found.Some? {
        var i :| 0 <= i < |sites[1..]| && Covers(r.base, sites[1..][i], ip) && !EndsAtTop(r.base, sites[1..][i])
          && Describe(r, found.value) == Describe(r, sites[1..][i]);
        assert sites[i + 1] == sites[1..][i];
      } else {
        assert forall i :: 1 <= i < |sites| ==> sites[i] == sites[1..][i - 1];
      }
    } else if sites != [] {
      assert Covers(r.base, sites[0], ip) && !EndsAtTop(r.base, sites[0]);
    }
  }

  /** What is to be done in a frame for an exception, according to its tables. */
  function ActionOf(ids: Ids, v: View, ip: nat, exc: Occurrence, forced: bool): Action {
    match v
    case NoTables => Nothing
    case Tables(region, sites, chains) =>
      match FindSite(region.base, sites, ip) {
        case None => Nothing
        case Some(s) =>
          var found := Describe(region, s);
          if found.pad == 0 then Nothing
          else if found.entry == 0 then Cleanup(found.pad)
          else if found.entry in chains then Choose(ids, chains[found.entry], exc, forced, found.pad)
          else Nothing
      }
  }

  method GetActionDescriptionFor(mem: seq<byte>, region: Region, ip: nat, ids: Ids, exc: Occurrence, forced: bool,
                                 ghost c: Context, ghost v: View) returns (action: Action)
    requires v.Tables? && v.region == region && Represents(mem, c, v)
    ensures action == ActionOf(ids, v, ip, exc, forced)
  {
    hide IsChain;
    hide Choose;
    hide Sites;
    hide ParseRegion;
    hide IsFullSearch;
    hide WellFormed;
    hide FindSite;
    var found := GetCallSiteActionFor(mem, region, ip);
    FindSiteIsFullSearch(region, v.sites, ip);
    ghost var site := FindSite(region.base, v.sites, ip);
    FullSearchIsUnique(region, v.sites, ip, found, FoundAt(region, site));
    hide Describe;
    if found.NoSite? {
      return Nothing;
    }
    assert Described(mem, region, site.value, v.chains);
    if found.pad == 0 {
      return Nothing;
    } else if found.entry == 0 {
      return Cleanup(found.pad);
    }
    action := WalkChain(mem, region, found.entry, ids, exc, forced, found.pad, v.chains[found.entry]);
  }

  // ----- the personality routine -----

  datatype Phases = Phases(search: bool, forced: bool)

  datatype Reason = ContinueUnwind | HandlerFound | InstallContext

  /** Where the context of a frame is made to resume: landing pad and handler switch value. */
  datatype Install = Install(pad: nat, filter: int)

  function FilterOf(a: Action): int {
    if a.Handler? then a.filter else 0
  }

  method PersonalityBody(mem: seq<byte>, c: Context, ids: Ids, exc: Occurrence, phases: Phases, ghost v: View)
    returns (reason: Reason, install: Option<Install>)
    requires Represents(mem, c, v)
    ensures var action := ActionOf(ids, v, IpOf(c), exc, phases.forced);
      && (reason == InstallContext <==> install.Some?)
      && (action.Nothing? ==> reason == ContinueUnwind)
      && (phases.search && !action.Nothing? ==> reason == if action.Handler? then HandlerFound else ContinueUnwind)
      && (!phases.search && !action.Nothing? ==>
            install == Some(Install(action.pad, if action.Handler? then action.filter else 0)))
  {
    if c.lsda == 0 {
      return ContinueUnwind, None;
    }
    var region := GetRegionDescriptionFor(mem, c);
    var action := GetActionDescriptionFor(mem, region.value, IpOf(c), ids, exc, phases.forced, c, v);
    if action.Nothing? {
      return ContinueUnwind, None;
    }
    if phases.search {
      return if action.Cleanup? then ContinueUnwind else HandlerFound, None;
    }
    return InstallContext, Some(Install(action.pad, FilterOf(action)));
  }

  /** A handler is always entered with a positive filter, and never under forced unwinding. */
  lemma HandlersAreChosen(ids: Ids, v: View, ip: nat, exc: Occurrence, forced: bool)
    ensures var a := ActionOf(ids, v, ip, exc, forced); a.Handler? ==> a.filter > 0 && !forced
  {
  }

  /** The filter of a handler is that of the first clause that catches the exception, in the chain of its call site. */
  lemma HandlerIsFirstCatch(ids: Ids, v: View, ip: nat, exc: Occurrence)
    requires ActionOf(ids, v, ip, exc, false).Handler?
    ensures v.Tables? && FindSite(v.region.base, v.sites, ip).Some?
    ensures var s := Describe(v.region, FindSite(v.region.base, v.sites, ip).value);
      var a := ActionOf(ids, v, ip, exc, false);
      && a.pad == s.pad && s.entry in v.chains
      && var first := FirstCatch(ids, v.chains[s.entry], exc);
         first.Some? && a.filter == v.chains[s.entry][first.value].filter
  {
  }
}
