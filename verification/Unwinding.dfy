/**
 The two-phase driver of the Itanium C++ ABI: Exception Handling, which calls the personality routine
 frame by frame: a search for a handler, then the cleanups on the way to it.  The code of a cleanup
 ends by resuming the unwinding from its own frame, at the address of that call.
 */
module Unwinding {
  import opened Common
  import EncodedPointers
  import opened CallSites
  import opened Personality
  import Tables = ExceptionTables

  /** A transfer of control into a frame. */
  datatype Landing = Landing(frame: nat, install: Install)

  /**
   The frames, innermost first, and what their tables say; where the code at a landing pad of a frame
   calls to resume the unwinding; and a measure for how deeply nested an address of a frame is.
   */
  datatype Stack = Stack(
    frames: seq<Context>, views: seq<View>,
    resumes: (nat, nat) -> nat, depth: (nat, nat) -> nat)

  function Resumed(c: Context, at: nat): Context {
    c.(ip := at, ipBeforeInsn := false)
  }

  ghost predicate AllRepresented(mem: seq<byte>, st: Stack) {
    |st.views| == |st.frames| && forall i :: 0 <= i < |st.frames| ==> Represents(mem, st.frames[i], st.views[i])
  }

  /** What is to be done in frame i at an address. */
  ghost function At(ids: Ids, st: Stack, exc: Occurrence, forced: bool, i: nat, ip: nat): Action
    requires i < |st.views|
  {
    ActionOf(ids, st.views[i], ip, exc, forced)
  }

  /** The address for which frame i is asked first. */
  ghost function Start(st: Stack, i: nat): nat {
    if i < |st.frames| then IpOf(st.frames[i]) else 0
  }

  /** The address for which it is asked again after the cleanup at this landing pad. */
  ghost function ResumeIp(st: Stack, i: nat, pad: nat): nat
    requires i < |st.frames|
  {
    IpOf(Resumed(st.frames[i], st.resumes(i, pad)))
  }

  /** A cleanup resumes farther outside, so that the unwinding of a frame comes to an end. */
  ghost predicate Outward(ids: Ids, st: Stack, exc: Occurrence, forced: bool) {
    && |st.views| == |st.frames|
    && forall i: nat, ip: nat :: i < |st.frames| && At(ids, st, exc, forced, i, ip).Cleanup? ==>
         st.depth(i, ResumeIp(st, i, At(ids, st, exc, forced, i, ip).pad)) < st.depth(i, ip)
  }

  /** The landings from frame i at an address on, up to the first handler. */
  ghost function Rest(ids: Ids, st: Stack, exc: Occurrence, forced: bool, i: nat, ip: nat): seq<Landing>
    requires Outward(ids, st, exc, forced) && i <= |st.frames|
    decreases |st.frames| - i, st.depth(i, ip)
  {
    if i == |st.frames| then []
    else
      match At(ids, st, exc, forced, i, ip)
      case Nothing => Rest(ids, st, exc, forced, i + 1, Start(st, i + 1))
      case Cleanup(pad) => [Landing(i, Install(pad, 0))] + Rest(ids, st, exc, forced, i, ResumeIp(st, i, pad))
      case Handler(pad, filter, _) => [Landing(i, Install(pad, filter))]
  }

  /** One step of it. */
  lemma RestIs(ids: Ids, st: Stack, exc: Occurrence, forced: bool, i: nat, ip: nat)
    requires Outward(ids, st, exc, forced) && i < |st.frames|
    ensures Rest(ids, st, exc, forced, i, ip) ==
      match At(ids, st, exc, forced, i, ip)
      case Nothing => Rest(ids, st, exc, forced, i + 1, Start(st, i + 1))
      case Cleanup(pad) => [Landing(i, Install(pad, 0))] + Rest(ids, st, exc, forced, i, ResumeIp(st, i, pad))
      case Handler(pad, filter, _) => [Landing(i, Install(pad, filter))]
  {
    hide At;
    hide Start;
    hide ResumeIp;
  }

  lemma RestEnds(ids: Ids, st: Stack, exc: Occurrence, forced: bool)
    requires Outward(ids, st, exc, forced)
    ensures |st.views| == |st.frames| && Rest(ids, st, exc, forced, |st.frames|, 0) == []
  {
  }

  /** Before the unwinding resumes, it is one level farther outside. */
  lemma OneLevelOut(ids: Ids, st: Stack, exc: Occurrence, forced: bool, i: nat, ip: nat)
    requires Outward(ids, st, exc, forced) && i < |st.frames| && At(ids, st, exc, forced, i, ip).Cleanup?
    ensures st.depth(i, ResumeIp(st, i, At(ids, st, exc, forced, i, ip).pad)) < st.depth(i, ip)
  {
  }

  /** All landings. */
  ghost function Landings(ids: Ids, st: Stack, exc: Occurrence, forced: bool): seq<Landing>
    requires Outward(ids, st, exc, forced)
  {
    Rest(ids, st, exc, forced, 0, Start(st, 0))
  }

  // ----- the driver -----

  lemma SameTables(mem: seq<byte>, c: Context, d: Context, v: View)
    requires Represents(mem, c, v) && c.lsda == d.lsda && c.bases == d.bases
    ensures Represents(mem, d, v)
  {
    hide Sites;
    hide WellFormed;
    hide Described;
    hide ReadIn;
    hide BaseOf;
    hide EncodedPointers.Unsigned128;
    assert ParseRegion(mem, c) == ParseRegion(mem, d);
  }

  /** The cleanup phase: lands, resumes and goes on with the next frame, until a handler is entered. */
  method Unwind(mem: seq<byte>, frames: seq<Context>, resumes: (nat, nat) -> nat, ids: Ids, exc: Occurrence,
                forced: bool,
                ghost st: Stack) returns (landings: seq<Landing>)
    requires st.frames == frames && st.resumes == resumes && AllRepresented(mem, st) && Outward(ids, st, exc, forced)
    ensures landings == Landings(ids, st, exc, forced)
  {
    hide Represents;
    hide ActionOf;
    hide IpOf;
    hide Rest;
    hide Outward;
    landings := [];
    RestEnds(ids, st, exc, forced);
    if frames == [] {
      return;
    }
    var i, c := 0, frames[0];
    while i < |frames|
      invariant 0 <= i <= |frames| && (i < |frames| ==> c.lsda == frames[i].lsda && c.bases == frames[i].bases)
      invariant landings + Rest(ids, st, exc, forced, i, if i < |frames| then IpOf(c) else 0)
        == Landings(ids, st, exc, forced)
      decreases |frames| - i, if i < |frames| then st.depth(i, IpOf(c)) else 0
    {
      SameTables(mem, frames[i], c, st.views[i]);
      RestIs(ids, st, exc, forced, i, IpOf(c));
      HandlersAreChosen(ids, st.views[i], IpOf(c), exc, forced);
      var reason, install := PersonalityBody(mem, c, ids, exc, Phases(false, forced), st.views[i]);
      if reason == InstallContext {
        landings := landings + [Landing(i, install.value)];
        if install.value.filter > 0 {
          return;
        }
        OneLevelOut(ids, st, exc, forced, i, IpOf(c));
        c := Resumed(frames[i], resumes(i, install.value.pad));
      } else {
        i := i + 1;
        if i < |frames| {
          c := frames[i];
        }
      }
    }
  }

  /**
   Raising an exception.  The search phase stops at the innermost frame with a handler for it; only
   if there is one does the cleanup phase run.
   */
  method RaiseException(mem: seq<byte>, frames: seq<Context>, resumes: (nat, nat) -> nat, ids: Ids, exc: Occurrence,
                        ghost st: Stack) returns (handler: Option<nat>, landings: seq<Landing>)
    requires st.frames == frames && st.resumes == resumes && AllRepresented(mem, st) && Outward(ids, st, exc, false)
    ensures match handler {
      case None => landings == [] && forall i :: 0 <= i < |frames| ==>
        !At(ids, st, exc, false, i, Start(st, i)).Handler?
      case Some(k) => Found(ids, st, exc, k) && landings == Landings(ids, st, exc, false)
    }
  {
    hide Represents;
    hide ActionOf;
    for k := 0 to |frames|
      invariant forall i :: 0 <= i < k ==> !At(ids, st, exc, false, i, Start(st, i)).Handler?
    {
      var reason, _ := PersonalityBody(mem, frames[k], ids, exc, Phases(true, false), st.views[k]);
      if reason == HandlerFound {
        landings := Unwind(mem, frames, resumes, ids, exc, false, st);
        return Some(k), landings;
      }
    }
    return None, [];
  }

  /** Frame k is the innermost one with a handler. */
  ghost predicate Found(ids: Ids, st: Stack, exc: Occurrence, k: nat) {
    && k < |st.frames| == |st.views| && At(ids, st, exc, false, k, Start(st, k)).Handler?
    && forall i :: 0 <= i < k ==> !At(ids, st, exc, false, i, Start(st, i)).Handler?
  }

  /** Forced unwinding has no search phase and runs through all frames. */
  method ForcedUnwind(mem: seq<byte>, frames: seq<Context>, resumes: (nat, nat) -> nat, ids: Ids, exc: Occurrence,
                      ghost st: Stack) returns (landings: seq<Landing>)
    requires st.frames == frames && st.resumes == resumes && AllRepresented(mem, st) && Outward(ids, st, exc, true)
    ensures landings == Landings(ids, st, exc, true)
  {
    landings := Unwind(mem, frames, resumes, ids, exc, true, st);
  }

  // ----- what the landings are -----

  /** Asked at this address, and again wherever its cleanups resume, frame i comes to a handler in the end. */
  ghost predicate Ends(ids: Ids, st: Stack, exc: Occurrence, forced: bool, i: nat, ip: nat)
    requires Outward(ids, st, exc, forced) && i < |st.frames|
    decreases st.depth(i, ip)
  {
    match At(ids, st, exc, forced, i, ip)
    case Nothing => false
    case Cleanup(pad) => Ends(ids, st, exc, forced, i, ResumeIp(st, i, pad))
    case Handler(_, _, _) => true
  }

  /** No frame before the n-th comes to a handler. */
  ghost predicate Quiet(ids: Ids, st: Stack, exc: Occurrence, forced: bool, n: nat)
    requires Outward(ids, st, exc, forced)
  {
    n <= |st.frames| && forall f :: 0 <= f < n ==> !Ends(ids, st, exc, forced, f, Start(st, f))
  }

  /** A landing in a cleanup, in a frame that has one at its call site. */
  ghost predicate IsCleanup(ids: Ids, st: Stack, exc: Occurrence, forced: bool, l: Landing) {
    l.frame < |st.views| && l.install.filter == 0 && At(ids, st, exc, forced, l.frame, Start(st, l.frame)).Cleanup?
  }

  ghost predicate Visits(landings: seq<Landing>, f: nat) {
    exists j :: 0 <= j < |landings| && landings[j].frame == f
  }

  ghost predicate InsideOut(landings: seq<Landing>) {
    forall i, j :: 0 <= i < j < |landings| ==> landings[i].frame <= landings[j].frame
  }

  /** The landings of the frames from i on and before frame k, and what follows. */
  ghost predicate CleanUpTo(ids: Ids, st: Stack, exc: Occurrence, forced: bool, inner: seq<Landing>, i: nat, ip: nat,
                            k: nat)
    requires k <= |st.frames| == |st.views| && i <= k
  {
    && InsideOut(inner)
    && (forall j :: 0 <= j < |inner| ==> i <= inner[j].frame < k && IsCleanup(ids, st, exc, forced, inner[j]))
    && (forall f :: i < f < k && At(ids, st, exc, forced, f, Start(st, f)).Cleanup? ==> Visits(inner, f))
    && (i < k && At(ids, st, exc, forced, i, ip).Cleanup? ==> Visits(inner, i))
  }

  lemma CleanMore(ids: Ids, st: Stack, exc: Occurrence, forced: bool, l: Landing, inner: seq<Landing>, i: nat, ip: nat,
                  at: nat, k: nat)
    requires k <= |st.frames| == |st.views| && i < k && CleanUpTo(ids, st, exc, forced, inner, i, at, k)
    requires l.frame == i && IsCleanup(ids, st, exc, forced, l)
    ensures CleanUpTo(ids, st, exc, forced, [l] + inner, i, ip, k)
  {
    hide IsCleanup;
    hide At;
    var more := [l] + inner;
    assert more[0].frame == i;
    assert forall j :: 1 <= j < |more| ==> more[j] == inner[j - 1];
    forall f | i < f < k && Visits(inner, f)
      ensures Visits(more, f)
    {
      var j :| 0 <= j < |inner| && inner[j].frame == f;
      assert more[j + 1].frame == f;
    }
  }

  lemma CleanNext(ids: Ids, st: Stack, exc: Occurrence, forced: bool, inner: seq<Landing>, i: nat, ip: nat, k: nat)
    requires k <= |st.frames| == |st.views| && i < k && At(ids, st, exc, forced, i, ip).Nothing?
    requires CleanUpTo(ids, st, exc, forced, inner, i + 1, Start(st, i + 1), k)
    ensures CleanUpTo(ids, st, exc, forced, inner, i, ip, k)
  {
    hide At;
    hide IsCleanup;
  }

  lemma NothingToClean(ids: Ids, st: Stack, exc: Occurrence, forced: bool, ip: nat, k: nat)
    requires k <= |st.frames| == |st.views|
    ensures CleanUpTo(ids, st, exc, forced, [], k, ip, k)
  {
  }

  lemma FirstIsCleanup(ids: Ids, st: Stack, exc: Occurrence, forced: bool, l: Landing)
    requires l.frame < |st.views| && l.install.filter == 0
      && At(ids, st, exc, forced, l.frame, Start(st, l.frame)).Cleanup?
    ensures IsCleanup(ids, st, exc, forced, l)
  {
  }

  lemma EndsIs(ids: Ids, st: Stack, exc: Occurrence, forced: bool, i: nat, ip: nat)
    requires Outward(ids, st, exc, forced) && i < |st.frames| && !Ends(ids, st, exc, forced, i, ip)
    ensures !At(ids, st, exc, forced, i, ip).Handler?
    ensures At(ids, st, exc, forced, i, ip).Cleanup? ==>
      !Ends(ids, st, exc, forced, i, ResumeIp(st, i, At(ids, st, exc, forced, i, ip).pad))
  {
    hide At;
    hide ResumeIp;
  }

  /** Before frame k only cleanups are entered, none is missed, and then frame k is reached. */
  lemma {:induction false} InnerAreCleanups(ids: Ids, st: Stack, exc: Occurrence, forced: bool, i: nat, ip: nat, k: nat)
    returns (inner: seq<Landing>)
    requires Outward(ids, st, exc, forced) && Quiet(ids, st, exc, forced, k) && i <= k <= |st.frames| == |st.views|
    requires i == k ==> ip == Start(st, k)
    requires i < k ==> !Ends(ids, st, exc, forced, i, ip)
    requires i < k && At(ids, st, exc, forced, i, ip).Cleanup? ==> At(ids, st, exc, forced, i, Start(st, i)).Cleanup?
    ensures CleanUpTo(ids, st, exc, forced, inner, i, ip, k)
    ensures Rest(ids, st, exc, forced, i, ip) == inner + Rest(ids, st, exc, forced, k, Start(st, k))
    decreases |st.frames| - i, st.depth(i, ip)
  {
    hide At;
    hide Start;
    hide ResumeIp;
    hide Rest;
    hide Ends;
    hide CleanUpTo;
    hide IsCleanup;
    hide Outward;
    if i < k {
      RestIs(ids, st, exc, forced, i, ip);
      EndsIs(ids, st, exc, forced, i, ip);
    }
    if i == k {
      inner := [];
      NothingToClean(ids, st, exc, forced, ip, k);
    } else if At(ids, st, exc, forced, i, ip).Nothing? {
      inner := InnerAreCleanups(ids, st, exc, forced, i + 1, Start(st, i + 1), k);
      CleanNext(ids, st, exc, forced, inner, i, ip, k);
    } else {
      var pad := At(ids, st, exc, forced, i, ip).pad;
      var l := Landing(i, Install(pad, 0));
      OneLevelOut(ids, st, exc, forced, i, ip);
      FirstIsCleanup(ids, st, exc, forced, l);
      inner := InnerAreCleanups(ids, st, exc, forced, i, ResumeIp(st, i, pad), k);
      CleanMore(ids, st, exc, forced, l, inner, i, ip, ResumeIp(st, i, pad), k);
      inner := [l] + inner;
    }
  }

  /** A frame that comes to a handler is the last one entered. */
  lemma {:induction false} EndsHere(ids: Ids, st: Stack, exc: Occurrence, forced: bool, i: nat, ip: nat)
    requires Outward(ids, st, exc, forced) && i < |st.frames| && Ends(ids, st, exc, forced, i, ip)
    ensures var rest := Rest(ids, st, exc, forced, i, ip); rest != [] && rest[|rest| - 1].frame == i
    decreases st.depth(i, ip)
  {
    hide At;
    hide ResumeIp;
    hide Rest;
    RestIs(ids, st, exc, forced, i, ip);
    var a := At(ids, st, exc, forced, i, ip);
    if a.Cleanup? {
      EndsHere(ids, st, exc, forced, i, ResumeIp(st, i, a.pad));
    }
  }

  /**
   Agreement of the phases.  The last landing is in the frame that the search has found if and only if
   no inner frame comes to a handler, which it could only do behind one of its cleanups.  Then all
   other landings are cleanups with filter 0, inside out, in exactly the inner frames with a cleanup,
   and the last one has the filter of the first clause in its chain that catches the exception.
   */
  lemma TwoPhaseAgreement(ids: Ids, st: Stack, exc: Occurrence, k: nat) returns (inner: seq<Landing>)
    requires Outward(ids, st, exc, false) && Found(ids, st, exc, k)
    ensures var all := Landings(ids, st, exc, false);
      all != [] && (all[|all| - 1].frame == k <==> Quiet(ids, st, exc, false, k))
    ensures Quiet(ids, st, exc, false, k) ==>
      && Agreed(ids, st, exc, inner, k)
      && InsideOut(inner)
      && (forall j :: 0 <= j < |inner| ==> inner[j].frame < k && IsCleanup(ids, st, exc, false, inner[j]))
      && (forall f :: 0 <= f < k && At(ids, st, exc, false, f, Start(st, f)).Cleanup? ==> Visits(inner, f))
  {
    HandlersAreChosen(ids, st.views[k], Start(st, k), exc, false);
    HandlerIsFirstCatch(ids, st.views[k], Start(st, k), exc);
    hide ActionOf;
    if Quiet(ids, st, exc, false, k) {
      inner := InnerAreCleanups(ids, st, exc, false, 0, Start(st, 0), k);
      RestIs(ids, st, exc, false, k, Start(st, k));
    } else {
      var m := FirstToEnd(ids, st, exc, false, k);
      inner := InnerAreCleanups(ids, st, exc, false, 0, Start(st, 0), m);
      EndsHere(ids, st, exc, false, m, Start(st, m));
    }
  }

  /** The landings end with the handler of frame k. */
  ghost predicate Agreed(ids: Ids, st: Stack, exc: Occurrence, inner: seq<Landing>, k: nat)
    requires Outward(ids, st, exc, false) && Found(ids, st, exc, k)
  {
    var a := At(ids, st, exc, false, k, Start(st, k));
    && Landings(ids, st, exc, false) == inner + [Landing(k, Install(a.pad, a.filter))]
    && a.filter > 0 && CaughtFirst(ids, st.views[k], Start(st, k), exc, a.filter)
  }

  lemma {:induction false} FirstToEnd(ids: Ids, st: Stack, exc: Occurrence, forced: bool, n: nat) returns (m: nat)
    requires Outward(ids, st, exc, forced) && n <= |st.frames| && !Quiet(ids, st, exc, forced, n)
    ensures m < n && Quiet(ids, st, exc, forced, m) && Ends(ids, st, exc, forced, m, Start(st, m))
  {
    hide Ends;
    hide Start;
    if Quiet(ids, st, exc, forced, n - 1) {
      m := n - 1;
    } else {
      m := FirstToEnd(ids, st, exc, forced, n - 1);
    }
  }

  /** Tables whose chains list all handlers around a call site: no cleanup resumes where one comes in sight. */
  lemma {:induction false} ListedHandlersAreQuiet(ids: Ids, st: Stack, exc: Occurrence, forced: bool, i: nat, ip: nat)
    requires Outward(ids, st, exc, forced) && i < |st.frames| && !At(ids, st, exc, forced, i, ip).Handler?
    requires forall at: nat :: At(ids, st, exc, forced, i, at).Cleanup? ==>
      !At(ids, st, exc, forced, i, ResumeIp(st, i, At(ids, st, exc, forced, i, at).pad)).Handler?
    ensures !Ends(ids, st, exc, forced, i, ip)
    decreases st.depth(i, ip)
  {
    hide At;
    hide ResumeIp;
    var a := At(ids, st, exc, forced, i, ip);
    if a.Cleanup? {
      ListedHandlersAreQuiet(ids, st, exc, forced, i, ResumeIp(st, i, a.pad));
    }
  }

  /** The filter is that of the first clause that catches the exception, in the chain of the call site. */
  ghost predicate CaughtFirst(ids: Ids, v: View, ip: nat, exc: Occurrence, filter: int) {
    && v.Tables? && FindSite(v.region.base, v.sites, ip).Some?
    && var entry := Describe(v.region, FindSite(v.region.base, v.sites, ip).value).entry;
       && entry in v.chains
       && var first := FirstCatch(ids, v.chains[entry], exc);
          first.Some? && filter == v.chains[entry][first.value].filter
  }

  lemma {:induction false} ForcedNeverEnds(ids: Ids, st: Stack, exc: Occurrence, i: nat, ip: nat)
    requires Outward(ids, st, exc, true) && i < |st.frames|
    ensures !Ends(ids, st, exc, true, i, ip)
    decreases st.depth(i, ip)
  {
    HandlersAreChosen(ids, st.views[i], ip, exc, true);
    hide ActionOf;
    var a := At(ids, st, exc, true, i, ip);
    if a.Cleanup? {
      ForcedNeverEnds(ids, st, exc, i, ResumeIp(st, i, a.pad));
    }
  }

  /** Forced unwinding lands in cleanups only, in exactly the frames that have one. */
  lemma ForcedLandsInCleanups(ids: Ids, st: Stack, exc: Occurrence)
    requires Outward(ids, st, exc, true)
    ensures InsideOut(Landings(ids, st, exc, true))
    ensures forall j :: 0 <= j < |Landings(ids, st, exc, true)| ==>
      IsCleanup(ids, st, exc, true, Landings(ids, st, exc, true)[j])
    ensures forall f :: 0 <= f < |st.frames| && At(ids, st, exc, true, f, Start(st, f)).Cleanup? ==>
      Visits(Landings(ids, st, exc, true), f)
  {
    forall f | 0 <= f < |st.frames|
      ensures !Ends(ids, st, exc, true, f, Start(st, f))
    {
      ForcedNeverEnds(ids, st, exc, f, Start(st, f));
    }
    hide At;
    var n := |st.frames|;
    var inner := InnerAreCleanups(ids, st, exc, true, 0, Start(st, 0), n);
    assert Rest(ids, st, exc, true, n, Start(st, n)) == [];
    assert inner + [] == inner;
  }

  /** Where no cleanup has another one around it in its frame, no frame is entered twice. */
  lemma {:induction false} EnteredOnce(ids: Ids, st: Stack, exc: Occurrence, forced: bool, i: nat, ip: nat)
    requires Outward(ids, st, exc, forced) && i <= |st.frames|
    requires forall f: nat, at: nat :: f < |st.frames| && At(ids, st, exc, forced, f, at).Cleanup? ==>
      At(ids, st, exc, forced, f, ResumeIp(st, f, At(ids, st, exc, forced, f, at).pad)).Nothing?
    ensures var all := Rest(ids, st, exc, forced, i, ip);
      && (forall j :: 0 <= j < |all| ==> i <= all[j].frame)
      && (forall j, k :: 0 <= j < k < |all| ==> all[j].frame < all[k].frame)
      && (i < |st.frames| && At(ids, st, exc, forced, i, ip).Nothing? ==>
            forall j :: 0 <= j < |all| ==> i < all[j].frame)
    decreases |st.frames| - i, st.depth(i, ip)
  {
    hide At;
    hide Start;
    hide ResumeIp;
    if i < |st.frames| {
      RestIs(ids, st, exc, forced, i, ip);
      match At(ids, st, exc, forced, i, ip)
      case Nothing => EnteredOnce(ids, st, exc, forced, i + 1, Start(st, i + 1));
      case Cleanup(pad) => EnteredOnce(ids, st, exc, forced, i, ResumeIp(st, i, pad));
      case Handler(_, _, _) =>
    }
  }

  /** A frame is first asked for the call site that its call is in, and decides as was written for that. */
  lemma FrameDecides(a: Tables.Area, mem: seq<byte>, base: nat, choices: seq<nat>, sites: seq<Tables.CallSite>, k: nat,
                     ids: Ids, st: Stack, exc: Occurrence, forced: bool, i: nat)
    requires i < |st.frames| == |st.views|
    requires Tables.LaidOut(a, mem, st.frames[i], base, choices)
    requires Tables.HasSites(a, st.frames[i].bases.region, sites)
    requires st.views[i] == Tables.ViewOf(a, st.frames[i], base, choices, sites)
    requires k < |sites| && Tables.CallIsIn(st.frames[i], sites[k])
    requires st.frames[i].bases.region + sites[k].start + sites[k].len != EncodedPointers.WORD
    ensures Tables.Written(a, st.frames[i].bases.region, choices, sites[k], ids, exc, forced,
                           At(ids, st, exc, forced, i, Start(st, i)))
  {
    Tables.CallDecides(a, mem, st.frames[i], base, choices, sites, k, ids, exc, forced);
  }

  /** Behind a cleanup it is asked for the call site that the call is in which resumes the unwinding. */
  lemma ResumeDecides(a: Tables.Area, mem: seq<byte>, base: nat, choices: seq<nat>, sites: seq<Tables.CallSite>, k: nat,
                      ids: Ids, st: Stack, exc: Occurrence, forced: bool, i: nat, pad: nat)
    requires i < |st.frames| == |st.views|
    requires Tables.LaidOut(a, mem, st.frames[i], base, choices)
    requires Tables.HasSites(a, st.frames[i].bases.region, sites)
    requires st.views[i] == Tables.ViewOf(a, st.frames[i], base, choices, sites)
    requires var region := st.frames[i].bases.region;
      && k < |sites| && region + sites[k].start < st.resumes(i, pad) <= region + sites[k].start + sites[k].len
      && region + sites[k].start + sites[k].len != EncodedPointers.WORD
    ensures Tables.Written(a, st.frames[i].bases.region, choices, sites[k], ids, exc, forced,
                           At(ids, st, exc, forced, i, ResumeIp(st, i, pad)))
  {
    var c := Resumed(st.frames[i], st.resumes(i, pad));
    Tables.CallDecides(a, mem, c, base, choices, sites, k, ids, exc, forced);
  }
}
