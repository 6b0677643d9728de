/**
 The choice of the 11-byte alias stored with every long name: upper-cased, cleaned, cut to size and
 numbered so that it differs from every alias in the directory.
 */
module FatAliases {
  import opened Common
  import opened FatLayout
  import opened FatNames

  // ----- short aliases -----

  /** The 11-byte names of the live entries. */
  function UsedShortNames(slots: seq<Slot>): set<seq<byte>>
    requires AreSlots(slots)
  {
    if slots == [] || slots[0][0] == 0 then {}
    else (if IsEntry(slots[0]) then {slots[0][..11]} else {}) + UsedShortNames(slots[1..])
  }

  method CollectShortNames(slots: seq<Slot>) returns (names: set<seq<byte>>)
    requires AreSlots(slots)
    ensures names == UsedShortNames(slots)
  {
    names := {};
    for i := 0 to |slots|
      invariant names + UsedShortNames(slots[i..]) == UsedShortNames(slots)
    {
      assert slots[i..][0] == slots[i] && slots[i..][1..] == slots[i + 1..];
      if slots[i][0] == 0 {
        break;
      }
      if IsEntry(slots[i]) {
        names := names + {slots[i][..11]};
      }
    }
  }

  lemma {:induction false} UsedShortNamesAre(slots: seq<Slot>, rest: seq<Slot>)
    requires Unterminated(slots) && AreSlots(rest) && (rest == [] || rest[0][0] == 0)
    ensures forall x :: x in UsedShortNames(slots + rest) <==>
      exists i :: 0 <= i < |slots| && IsEntry(slots[i]) && slots[i][..11] == x
  {
    var all := slots + rest;
    if slots == [] {
      assert all == rest;
    } else {
      assert all[0] == slots[0] && all[1..] == slots[1..] + rest;
      UsedShortNamesAre(slots[1..], rest);
      forall x
        ensures x in UsedShortNames(all) <==> exists i :: 0 <= i < |slots| && IsEntry(slots[i]) && slots[i][..11] == x
      {
        if x in UsedShortNames(slots[1..] + rest) {
          var i :| 0 <= i < |slots[1..]| && IsEntry(slots[1..][i]) && slots[1..][i][..11] == x;
          assert slots[i + 1] == slots[1..][i];
        }
        if i :| 0 <= i < |slots| && IsEntry(slots[i]) && slots[i][..11] == x {
          if i > 0 {
            assert slots[1..][i - 1] == slots[i];
          }
        }
      }
    }
  }

  /** The characters a short name keeps: capitals, digits and !#$%&'()-@^_`{}~. */
  predicate IsKept(u: Unit) {
    || 65 <= u <= 90 || 48 <= u <= 57
    || u == 33 || 35 <= u <= 41 || u == 45 || u == 64 || 94 <= u <= 96 || u == 123 || 125 <= u <= 126
  }

  /** The characters of a short name, as they are listed. */
  predicate IsListed(c: char) {
    c in {'A', 'B', 'C', 'D', 'E', 'F', 'G', 'H', 'I', 'J', 'K', 'L', 'M',
         'N', 'O', 'P', 'Q', 'R', 'S', 'T', 'U', 'V', 'W', 'X', 'Y', 'Z',
         '0', '1', '2', '3', '4', '5', '6', '7', '8', '9',
         '!', '#', '$', '%', '&', '\'', '(', ')', '-', '@', '^', '_', '`', '{', '}', '~'}
  }

  lemma KeptAreListed(c: char)
    requires c as int < 0x10000
    ensures IsKept(c as int) <==> IsListed(c)
  {
  }

  function CleanUnit(u: Unit): (b: byte)
    ensures b !in {0, DELETED, 0x2E, 0x20}
  {
    if IsKept(u) then u else 95
  }

  /** Upper-cases a name and replaces what a short name cannot hold. */
  function Clean(name: Name, upper: Name -> Name): (r: seq<byte>)
    ensures forall i :: 0 <= i < |r| ==> r[i] !in {0, DELETED, 0x2E, 0x20}
  {
    var s := upper(name);
    seq(|s|, i requires 0 <= i < |s| => CleanUnit(s[i]))
  }

  /** Upper-casing a character of an upper-cased name once more changes nothing, as in Unicode. */
  ghost predicate Stable(upper: Name -> Name) {
    forall name: Name, i :: 0 <= i < |upper(name)| ==> upper([upper(name)[i]]) == [upper(name)[i]]
  }

  predicate IsKeptWord(word: Name) {
    |word| == 1 && IsKept(word[0])
  }

  /** The cleaning as it is written, where each character is upper-cased once more before it is looked up. */
  lemma CleanAsWritten(name: Name, upper: Name -> Name)
    requires Stable(upper)
    ensures var s := upper(name);
      && |Clean(name, upper)| == |s|
      && forall i :: 0 <= i < |s| ==> Clean(name, upper)[i] == (if IsKeptWord(upper([s[i]])) then s[i] else 95)
  {
    hide IsKept;
    var s := upper(name);
    assert forall i :: 0 <= i < |s| ==> upper([s[i]]) == [s[i]];
  }

  /** The position of the last dot, or -1. */
  function LastDot(name: Name): (k: int)
    ensures -1 <= k < |name|
  {
    if name == [] then -1
    else if name[|name| - 1] == 46 then |name| - 1
    else LastDot(name[..|name| - 1])
  }

  function Stem(name: Name): Name {
    var k := LastDot(name);
    if k <= 0 then name else name[..k]
  }

  function Extension(name: Name): Name {
    var k := LastDot(name);
    if k <= 0 then [] else name[k + 1..]
  }

  lemma {:induction false} LastDotIs(stem: Name, ext: Name)
    requires 46 !in ext
    ensures LastDot(stem + [46] + ext) == |stem|
    decreases |ext|
  {
    var name := stem + [46] + ext;
    if ext != [] {
      assert name[..|name| - 1] == stem + [46] + ext[..|ext| - 1];
      LastDotIs(stem, ext[..|ext| - 1]);
    }
  }

  lemma {:induction false} NoDot(name: Name)
    requires 46 !in name
    ensures LastDot(name) == -1
    decreases |name|
  {
    if name != [] {
      NoDot(name[..|name| - 1]);
    }
  }

  /** A name is cut at its last dot, unless that is its first character or there is none. */
  lemma NameIsCut(stem: Name, ext: Name)
    requires 46 !in ext
    ensures stem != [] ==> Stem(stem + [46] + ext) == stem && Extension(stem + [46] + ext) == ext
    ensures Stem([46] + ext) == [46] + ext && Extension([46] + ext) == []
    ensures Stem(ext) == ext && Extension(ext) == []
  {
    LastDotIs(stem, ext);
    LastDotIs([], ext);
    assert [] + [46] + ext == [46] + ext;
    NoDot(ext);
  }

  function Tail(n: nat): (r: seq<byte>)
    requires 1 <= n < 100
    ensures |r| == if n < 10 then 2 else 3
  {
    if n < 10 then [126, 48 + n] else [126, 48 + n / 10, 48 + n % 10]
  }

  function Take<T>(s: seq<T>, n: nat): seq<T> {
    if |s| <= n then s else s[..n]
  }

  function PadTo(s: seq<byte>, n: nat): (r: seq<byte>)
    requires |s| <= n
    ensures |r| == n && r[..|s|] == s
  {
    s + seq(n - |s|, _ => 0x20)
  }

  function Base(stem: seq<byte>, n: nat): (r: seq<byte>)
    requires 1 <= n < 100
    ensures 2 <= |r| <= 8
  {
    Take(stem, 8 - |Tail(n)|) + Tail(n)
  }

  function Candidate(stem: seq<byte>, ext: seq<byte>, n: nat): (r: seq<byte>)
    requires 1 <= n < 100
    ensures |r| == 11
  {
    PadTo(Base(stem, n), 8) + PadTo(Take(ext, 3), 3)
  }

  lemma CandidateIsAlias(stem: seq<byte>, ext: seq<byte>, n: nat)
    requires 1 <= n < 100
    requires forall i :: 0 <= i < |stem| ==> stem[i] !in {0, DELETED, 0x2E, 0x20}
    ensures IsAlias(Candidate(stem, ext, n))
  {
    assert Candidate(stem, ext, n)[0] == Base(stem, n)[0];
  }

  lemma CandidateAt(stem: seq<byte>, ext: seq<byte>, n: nat, i: nat)
    requires 1 <= n < 100 && i < 8
    ensures Candidate(stem, ext, n)[i] == if i < |Base(stem, n)| then Base(stem, n)[i] else 0x20
  {
  }

  /**
   Candidate n, byte by byte: as much of the stem as leaves room for a tilde and the digits of n, these,
   and the first three characters of the extension, each part filled up with blanks.
   */
  lemma CandidateIs(stem: seq<byte>, ext: seq<byte>, n: nat, i: nat)
    requires 1 <= n < 100 && i < 11
    ensures var room := if n < 10 then 6 else 5;
      var kept := if |stem| < room then |stem| else room;
      Candidate(stem, ext, n)[i] ==
        if i < kept then stem[i]
        else if i == kept then 0x7E
        else if i == kept + 1 then 0x30 + (if n < 10 then n else n / 10)
        else if i == kept + 2 && n >= 10 then 0x30 + n % 10
        else if 8 <= i < 8 + |ext| then ext[i - 8]
        else 0x20
  {
    if i < 8 {
      CandidateAt(stem, ext, n, i);
    }
  }

  /** The numbered candidates for one name are all different. */
  lemma CandidatesDiffer(stem: seq<byte>, ext: seq<byte>, m: nat, n: nat)
    requires 1 <= m < n < 100
    ensures Candidate(stem, ext, m) != Candidate(stem, ext, n)
  {
    var last := |Base(stem, n)| - 1;
    CandidateAt(stem, ext, m, last);
    CandidateAt(stem, ext, n, last);
    CandidateAt(stem, ext, m, last - 1);
    CandidateAt(stem, ext, n, last - 1);
  }

  function Candidates(stem: seq<byte>, ext: seq<byte>, k: nat): set<seq<byte>>
    requires k < 100
  {
    set n | 1 <= n <= k :: Candidate(stem, ext, n)
  }

  lemma {:induction false} CandidatesCount(stem: seq<byte>, ext: seq<byte>, k: nat)
    requires k < 100
    ensures |Candidates(stem, ext, k)| == k
  {
    if k == 0 {
      assert Candidates(stem, ext, 0) == {};
    } else {
      CandidatesCount(stem, ext, k - 1);
      forall n | 1 <= n < k {
        CandidatesDiffer(stem, ext, n, k);
      }
      assert Candidates(stem, ext, k) == Candidates(stem, ext, k - 1) + {Candidate(stem, ext, k)};
    }
  }

  lemma SubsetSize<T>(a: set<T>, b: set<T>)
    requires a <= b
    ensures |a| <= |b|
  {
    assert b == a + (b - a);
  }

  /** With fewer than 99 names taken, some candidate is free. */
  lemma CandidateIsFree(stem: seq<byte>, ext: seq<byte>, taken: set<seq<byte>>)
    requires |taken| < 99
    ensures exists n :: 1 <= n < 100 && Candidate(stem, ext, n) !in taken
  {
    if forall n :: 1 <= n < 100 ==> Candidate(stem, ext, n) in taken {
      CandidatesCount(stem, ext, 99);
      SubsetSize(Candidates(stem, ext, 99), taken);
    }
  }

  /** Candidate n is free and all before it are taken. */
  ghost predicate FirstFree(stem: seq<byte>, ext: seq<byte>, taken: set<seq<byte>>, n: nat) {
    1 <= n < 100 && Candidate(stem, ext, n) !in taken && forall m :: 1 <= m < n ==> Candidate(stem, ext, m) in taken
  }

  /** The alias of a name is the first of its numbered candidates that is not taken. */
  ghost predicate IsFirstFree(name: Name, taken: set<seq<byte>>, upper: Name -> Name, short: seq<byte>) {
    var stem, ext := Clean(Stem(name), upper), Clean(Extension(name), upper);
    exists n :: FirstFree(stem, ext, taken, n) && short == Candidate(stem, ext, n)
  }

  ghost predicate NoneFree(name: Name, taken: set<seq<byte>>, upper: Name -> Name) {
    var stem, ext := Clean(Stem(name), upper), Clean(Extension(name), upper);
    forall n :: 1 <= n < 100 ==> Candidate(stem, ext, n) in taken
  }

  /** The first numbered alias not yet taken; there is one whenever fewer than 99 names are taken. */
  method MakeShortName(name: Name, taken: set<seq<byte>>, upper: Name -> Name) returns (r: Option<seq<byte>>)
    ensures r.Some? ==> IsAlias(r.value) && r.value !in taken && IsFirstFree(name, taken, upper, r.value)
    ensures r.None? <==> NoneFree(name, taken, upper)
    ensures |taken| < 99 ==> r.Some?
  {
    var stem, ext := Clean(Stem(name), upper), Clean(Extension(name), upper);
    for n := 1 to 100
      invariant forall m :: 1 <= m < n ==> Candidate(stem, ext, m) in taken
    {
      var candidate := Candidate(stem, ext, n);
      if candidate !in taken {
        CandidateIsAlias(stem, ext, n);
        assert FirstFree(stem, ext, taken, n);
        return Some(candidate);
      }
    }
    if |taken| < 99 {
      CandidateIsFree(stem, ext, taken);
    }
    return None;
  }
}
