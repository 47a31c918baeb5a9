/**
 * Self-modifying kernel code redone on the image of a module: function-tracing call sites become
 * no-ops, and each jump label becomes a jump or a no-op, depending on its key in memory.
 */
module CodePatching {
  import opened MachineIntegers
  import opened Bytes
  import opened Options

  const SITE_SIZE := 5
  const MAX_NOP_SIZE := 8
  const JUMP := 0xe9
  const PAGE := 4096

  // ---- No-ops ----

  /** The AMD no-op of `n` bytes. */
  function Nop(n: nat): (code: seq<byte>)
    requires 1 <= n <= MAX_NOP_SIZE
    ensures |code| == n
  {
    if n == 1 then [0x90]
    else if n == 2 then [0x66, 0x90]
    else if n == 3 then [0x66, 0x66, 0x90]
    else if n == 4 then [0x66, 0x66, 0x66, 0x90]
    else if n == 5 then Nop(3) + Nop(2)
    else if n == 6 then Nop(3) + Nop(3)
    else if n == 7 then Nop(4) + Nop(3)
    else Nop(4) + Nop(4)
  }

  function Nops(len: nat): (code: seq<byte>)
    ensures |code| == len
  {
    if len == 0 then []
    else
      var n := if len > MAX_NOP_SIZE then MAX_NOP_SIZE else len;
      Nop(n) + Nops(len - n)
  }

  /** Nothing but no-op instructions: the opcode 90, each with any number of operand-size prefixes 66. */
  predicate OnlyNops(code: seq<byte>) {
    code == []
    || (code[0] == 0x90 && OnlyNops(code[1..]))
    || (code[0] == 0x66 && |code| > 1 && (code[1] == 0x66 || code[1] == 0x90) && OnlyNops(code[1..]))
  }

  lemma {:induction false} OnlyNopsJoin(a: seq<byte>, b: seq<byte>)
    requires OnlyNops(a) && OnlyNops(b)
    ensures OnlyNops(a + b)
  {
    if a == [] {
      assert a + b == b;
    } else {
      OnlyNopsJoin(a[1..], b);
      assert (a + b)[1..] == a[1..] + b;
    }
  }

  lemma NopIsNop(n: nat)
    requires 1 <= n <= MAX_NOP_SIZE
    ensures OnlyNops(Nop(n))
  {
    var one: seq<byte>, two: seq<byte>, three: seq<byte>, four: seq<byte> :=
        [0x90], [0x66, 0x90], [0x66, 0x66, 0x90], [0x66, 0x66, 0x66, 0x90];
    assert OnlyNops(one);
    assert two[1..] == one && OnlyNops(two);
    assert three[1..] == two && OnlyNops(three);
    assert four[1..] == three && OnlyNops(four);
    OnlyNopsJoin(three, two);
    OnlyNopsJoin(three, three);
    OnlyNopsJoin(four, three);
    OnlyNopsJoin(four, four);
  }

  /** The no-ops for the AMD K8, one for each length. */
  lemma K8Nops()
    ensures Nop(1) == [0x90] && Nop(2) == [0x66, 0x90] && Nop(3) == [0x66, 0x66, 0x90]
    ensures Nop(4) == [0x66, 0x66, 0x66, 0x90]
    ensures Nop(5) == [0x66, 0x66, 0x90, 0x66, 0x90]
    ensures Nop(6) == [0x66, 0x66, 0x90, 0x66, 0x66, 0x90]
    ensures Nop(7) == [0x66, 0x66, 0x66, 0x90, 0x66, 0x66, 0x90]
    ensures Nop(8) == [0x66, 0x66, 0x66, 0x90, 0x66, 0x66, 0x66, 0x90]
  {
  }

  /** Padding consists of no-ops of eight bytes, and a shorter one for what is left. */
  lemma NopsInEights(len: nat)
    ensures len > 8 ==> Nops(len) == Nop(8) + Nops(len - 8)
    ensures 0 < len <= 8 ==> Nops(len) == Nop(len)
  {
    if 0 < len <= 8 {
      assert Nops(0) == [];
      assert Nop(len) + [] == Nop(len);
    }
  }

  lemma FiveNops()
    ensures Nops(SITE_SIZE) == [0x66, 0x66, 0x90, 0x66, 0x90]
  {
    K8Nops();
    NopsInEights(5);
    hide Nops, Nop;
  }

  /** Padding is executable and does nothing, whatever its length. */
  lemma {:induction false} NopsDoNothing(len: nat)
    ensures OnlyNops(Nops(len))
  {
    if len > 0 {
      var n := if len > MAX_NOP_SIZE then MAX_NOP_SIZE else len;
      NopIsNop(n);
      NopsDoNothing(len - n);
      OnlyNopsJoin(Nop(n), Nops(len - n));
    }
  }

  // ---- Patches ----

  datatype JumpEntry = JumpEntry(code: Word, target: Word, key: Word)

  datatype Patch = Nopped(at: nat) | Jumped(at: nat, destination: int, enabled: bool)

  function JumpCode(destination: int): (code: seq<byte>)
    ensures |code| == SITE_SIZE
  {
    [JUMP] + Little(Low(destination, W32), 4)
  }

  function Code(p: Patch): (code: seq<byte>)
    ensures |code| == SITE_SIZE
  {
    if p.Jumped? && p.enabled then JumpCode(p.destination) else Nops(SITE_SIZE)
  }

  /** The displacement of a jump from the end of the patched instruction, cut to 32 bits. */
  function Displacement(e: JumpEntry): int { Signed(e.target - (e.code + SITE_SIZE), W32) }

  function Offset(address: Word, base: Word): nat { ToWord(address - base) }

  /** What is known of a module: load address, call sites, the jump table of its file and the one in memory. */
  datatype Module = Module(base: Word, callSites: seq<Word>, table: seq<JumpEntry>, live: seq<JumpEntry>,
      limit: Option<int>)

  /** The counters of the keys, as found in memory. */
  type Keys = Word -> nat

  function CallPatches(m: Module, n: nat): seq<Patch>
    requires n <= |m.callSites|
  {
    if n == 0 then [] else CallPatches(m, n - 1) + [Nopped(Offset(m.callSites[n - 1], m.base))]
  }

  /** Entries beyond the kernel's text, that is in its init section, are not applied. */
  predicate Skipped(m: Module, e: JumpEntry) { m.limit.Some? && e.code > m.limit.value }

  function EntryPatches(m: Module, e: JumpEntry, keys: Keys, n: nat): seq<Patch>
    requires n <= |m.table|
  {
    if n == 0 then []
    else
      var t := m.table[n - 1];
      EntryPatches(m, e, keys, n - 1)
      + (if e.code == t.code then [Jumped(Offset(t.code, m.base), Displacement(t), keys(e.key) != 0)] else [])
  }

  function JumpPatches(m: Module, keys: Keys, n: nat): seq<Patch>
    requires n <= |m.live|
  {
    if n == 0 then []
    else
      var e := m.live[n - 1];
      JumpPatches(m, keys, n - 1) + (if Skipped(m, e) then [] else EntryPatches(m, e, keys, |m.table|))
  }

  function Patches(m: Module, keys: Keys): seq<Patch> {
    CallPatches(m, |m.callSites|) + JumpPatches(m, keys, |m.live|)
  }

  predicate Inside(ps: seq<Patch>, size: nat) {
    forall k :: 0 <= k < |ps| ==> ps[k].at + SITE_SIZE <= size
  }

  function Apply(image: seq<byte>, ps: seq<Patch>): (r: seq<byte>)
    requires Inside(ps, |image|)
    ensures |r| == |image|
  {
    if ps == [] then image
    else
      var front, last := ps[..|ps| - 1], ps[|ps| - 1];
      InsideFront(ps, |image|);
      Store(Apply(image, front), last.at, Code(last))
  }

  /** The destinations by offset; the entry patched last wins. */
  function Recorded(table: map<nat, int>, ps: seq<Patch>): map<nat, int> {
    if ps == [] then table
    else
      var rest, last := Recorded(table, ps[..|ps| - 1]), ps[|ps| - 1];
      if last.Jumped? then rest[last.at := last.destination] else rest
  }

  // ---- Nothing but the sites changes ----

  predicate Covers(p: Patch, x: int) { p.at <= x < p.at + SITE_SIZE }

  predicate Covered(ps: seq<Patch>, x: int) {
    exists k :: 0 <= k < |ps| && Covers(ps[k], x)
  }

  lemma CoveredLast(ps: seq<Patch>, x: int)
    requires ps != []
    ensures Covered(ps, x) <==> Covers(ps[|ps| - 1], x) || Covered(ps[..|ps| - 1], x)
  {
    var front := ps[..|ps| - 1];
    if Covered(ps, x) {
      var k :| 0 <= k < |ps| && Covers(ps[k], x);
      assert k < |front| ==> Covers(front[k], x);
    }
    if Covered(front, x) {
      var k :| 0 <= k < |front| && Covers(front[k], x);
      assert Covers(ps[k], x);
    }
  }

  lemma InsideFront(ps: seq<Patch>, size: nat)
    requires Inside(ps, size) && ps != []
    ensures Inside(ps[..|ps| - 1], size)
  {
    var front := ps[..|ps| - 1];
    assert forall k :: 0 <= k < |front| ==> front[k] == ps[k];
  }

  lemma ApplyLast(image: seq<byte>, ps: seq<Patch>, x: nat)
    requires Inside(ps, |image|) && ps != [] && x < |image|
    ensures Inside(ps[..|ps| - 1], |image|)
    ensures Apply(image, ps)[x] ==
            if Covers(ps[|ps| - 1], x) then Code(ps[|ps| - 1])[x - ps[|ps| - 1].at] else Apply(image, ps[..|ps| - 1])[x]
  {
    hide Store, Code;
    InsideFront(ps, |image|);
    var before, last := Apply(image, ps[..|ps| - 1]), ps[|ps| - 1];
    LastFits(ps, |image|);
    hide Inside;
    StoreAt(before, last.at, Code(last), x);
  }

  lemma LastFits(ps: seq<Patch>, size: nat)
    requires Inside(ps, size) && ps != []
    ensures ps[|ps| - 1].at + SITE_SIZE <= size
  {
  }

  /** A byte outside all sites stays as it is. */
  lemma {:induction false} OnlySitesChange(image: seq<byte>, ps: seq<Patch>, x: nat)
    requires Inside(ps, |image|) && x < |image| && !Covered(ps, x)
    ensures Apply(image, ps)[x] == image[x]
  {
    if ps != [] {
      ApplyLast(image, ps, x);
      CoveredLast(ps, x);
      OnlySitesChange(image, ps[..|ps| - 1], x);
    }
  }

  // ---- Patching again forgets what was patched before ----

  /** A byte inside a site does not depend on the image that is patched. */
  lemma {:induction false} SitesForget(a: seq<byte>, b: seq<byte>, ps: seq<Patch>, x: nat)
    requires |a| == |b| && Inside(ps, |a|) && x < |a| && Covered(ps, x)
    ensures Apply(a, ps)[x] == Apply(b, ps)[x]
  {
    if ps != [] {
      CoveredLast(ps, x);
      ApplyLast(a, ps, x);
      ApplyLast(b, ps, x);
      if !Covers(ps[|ps| - 1], x) {
        SitesForget(a, b, ps[..|ps| - 1], x);
      }
    }
  }

  predicate SameSites(ps: seq<Patch>, qs: seq<Patch>) {
    |ps| == |qs| && forall k :: 0 <= k < |ps| ==> ps[k].at == qs[k].at
  }

  lemma SameSitesCover(ps: seq<Patch>, qs: seq<Patch>, size: nat, x: int)
    requires SameSites(ps, qs)
    ensures Covered(ps, x) <==> Covered(qs, x)
    ensures Inside(ps, size) <==> Inside(qs, size)
  {
    if Covered(ps, x) {
      var k :| 0 <= k < |ps| && Covers(ps[k], x);
      assert Covers(qs[k], x);
    }
    if Covered(qs, x) {
      var k :| 0 <= k < |qs| && Covers(qs[k], x);
      assert Covers(ps[k], x);
    }
  }

  /** Overlapping sites included. */
  lemma RepatchingForgets(image: seq<byte>, ps: seq<Patch>, qs: seq<Patch>)
    requires SameSites(ps, qs) && Inside(ps, |image|)
    ensures Inside(qs, |image|) && Apply(Apply(image, ps), qs) == Apply(image, qs)
  {
    SameSitesCover(ps, qs, |image|, 0);
    var patched := Apply(image, ps);
    forall x | 0 <= x < |image| ensures Apply(patched, qs)[x] == Apply(image, qs)[x] {
      SameSitesCover(ps, qs, |image|, x);
      if Covered(qs, x) {
        SitesForget(patched, image, qs, x);
      } else {
        OnlySitesChange(image, ps, x);
        OnlySitesChange(image, qs, x);
        OnlySitesChange(patched, qs, x);
      }
    }
  }

  lemma SameSitesJoin(a: seq<Patch>, b: seq<Patch>, c: seq<Patch>, d: seq<Patch>)
    requires SameSites(a, c) && SameSites(b, d)
    ensures SameSites(a + b, c + d)
  {
  }

  lemma {:induction false} EntrySites(m: Module, e: JumpEntry, k1: Keys, k2: Keys, n: nat)
    requires n <= |m.table|
    ensures SameSites(EntryPatches(m, e, k1, n), EntryPatches(m, e, k2, n))
  {
    if n > 0 { EntrySites(m, e, k1, k2, n - 1); }
  }

  lemma {:induction false} JumpSites(m: Module, k1: Keys, k2: Keys, n: nat)
    requires n <= |m.live|
    ensures SameSites(JumpPatches(m, k1, n), JumpPatches(m, k2, n))
  {
    if n > 0 {
      JumpSites(m, k1, k2, n - 1);
      var e := m.live[n - 1];
      EntrySites(m, e, k1, k2, |m.table|);
      SameSitesJoin(JumpPatches(m, k1, n - 1), if Skipped(m, e) then [] else EntryPatches(m, e, k1, |m.table|),
                    JumpPatches(m, k2, n - 1), if Skipped(m, e) then [] else EntryPatches(m, e, k2, |m.table|));
    }
  }

  /** Keys decide what is written, not where. */
  lemma KeysKeepSites(m: Module, k1: Keys, k2: Keys)
    ensures SameSites(Patches(m, k1), Patches(m, k2))
  {
    JumpSites(m, k1, k2, |m.live|);
    SameSitesJoin(CallPatches(m, |m.callSites|), JumpPatches(m, k1, |m.live|),
                  CallPatches(m, |m.callSites|), JumpPatches(m, k2, |m.live|));
  }

  /** The image after one update for each of these states of the keys. */
  ghost function Updates(m: Module, image: seq<byte>, history: seq<Keys>): (r: seq<byte>)
    requires forall k: Keys :: Inside(Patches(m, k), |image|)
    ensures |r| == |image|
  {
    if history == [] then image
    else Apply(Updates(m, image, history[..|history| - 1]), Patches(m, history[|history| - 1]))
  }

  /** Whatever the keys went through, the image is that of one update with the latest keys. */
  lemma {:induction false} HistoryForgotten(m: Module, image: seq<byte>, history: seq<Keys>)
    requires forall k: Keys :: Inside(Patches(m, k), |image|)
    requires history != []
    ensures Updates(m, image, history) == Apply(image, Patches(m, history[|history| - 1]))
  {
    var front, last := history[..|history| - 1], history[|history| - 1];
    if front != [] {
      HistoryForgotten(m, image, front);
      KeysKeepSites(m, front[|front| - 1], last);
      RepatchingForgets(image, Patches(m, front[|front| - 1]), Patches(m, last));
    }
  }

  // ---- What the sites hold ----

  /** Two sites are the same or do not overlap. */
  predicate Apart(ps: seq<Patch>) {
    forall j, k :: 0 <= j < |ps| && 0 <= k < |ps| ==>
      ps[j].at == ps[k].at || ps[j].at + SITE_SIZE <= ps[k].at || ps[k].at + SITE_SIZE <= ps[j].at
  }

  predicate HasSite(ps: seq<Patch>, at: nat) {
    exists k :: 0 <= k < |ps| && ps[k].at == at
  }

  function LastAt(ps: seq<Patch>, at: nat): (k: nat)
    requires HasSite(ps, at)
    ensures k < |ps| && ps[k].at == at
    ensures forall j :: k < j < |ps| ==> ps[j].at != at
  {
    if ps[|ps| - 1].at == at then |ps| - 1
    else
      var k: nat :| k < |ps| && ps[k].at == at;
      assert ps[..|ps| - 1][k].at == at;
      LastAt(ps[..|ps| - 1], at)
  }

  lemma ApartFront(ps: seq<Patch>)
    requires Apart(ps) && ps != []
    ensures Apart(ps[..|ps| - 1])
  {
  }

  /** A site holds what the last patch for it wrote. */
  lemma {:induction false} SiteHoldsLast(image: seq<byte>, ps: seq<Patch>, at: nat)
    requires Inside(ps, |image|) && Apart(ps) && HasSite(ps, at)
    ensures at + SITE_SIZE <= |image|
    ensures Apply(image, ps)[at..at + SITE_SIZE] == Code(ps[LastAt(ps, at)])
  {
    hide Code, Store;
    var front, last := ps[..|ps| - 1], ps[|ps| - 1];
    InsideFront(ps, |image|);
    if last.at == at {
      StoredThere(Apply(image, front), at, Code(last));
    } else {
      var k: nat :| k < |ps| && ps[k].at == at;
      assert front[k].at == at;
      ApartFront(ps);
      LastFits(ps, |image|);
      assert ps[k].at + SITE_SIZE <= last.at || last.at + SITE_SIZE <= ps[k].at;
      hide Apart, Inside;
      SiteHoldsLast(image, front, at);
      StoredElsewhere(Apply(image, front), last.at, Code(last), at, at + SITE_SIZE);
    }
  }

  /** The table of a file, and the one in memory, list a jump site once. */
  predicate Distinct(entries: seq<JumpEntry>) {
    forall i, j :: 0 <= i < j < |entries| ==> entries[i].code != entries[j].code
  }

  function JumpPatch(m: Module, e: JumpEntry, t: JumpEntry, keys: Keys): Patch {
    Jumped(Offset(t.code, m.base), Displacement(t), keys(e.key) != 0)
  }

  predicate Matches(m: Module, e: JumpEntry, t: JumpEntry) {
    e in m.live && t in m.table && e.code == t.code && !Skipped(m, e)
  }

  lemma {:induction false} EntryOrigin(m: Module, e: JumpEntry, keys: Keys, n: nat, p: Patch)
    requires n <= |m.table|
    ensures p in EntryPatches(m, e, keys, n) <==>
            exists t :: t in m.table[..n] && e.code == t.code && p == JumpPatch(m, e, t, keys)
  {
    if n > 0 {
      EntryOrigin(m, e, keys, n - 1, p);
      assert m.table[..n] == m.table[..n - 1] + [m.table[n - 1]];
    }
  }

  ghost predicate FromEntry(m: Module, e: JumpEntry, keys: Keys, p: Patch) {
    exists t :: Matches(m, e, t) && p == JumpPatch(m, e, t, keys)
  }

  lemma EntryPatchesMatch(m: Module, keys: Keys, e: JumpEntry, p: Patch)
    requires e in m.live && !Skipped(m, e)
    ensures p in EntryPatches(m, e, keys, |m.table|) <==> FromEntry(m, e, keys, p)
  {
    hide EntryPatches, JumpPatch;
    EntryOrigin(m, e, keys, |m.table|, p);
    assert m.table[..|m.table|] == m.table;
    if p in EntryPatches(m, e, keys, |m.table|) {
      var t :| t in m.table[..|m.table|] && e.code == t.code && p == JumpPatch(m, e, t, keys);
      assert Matches(m, e, t);
    }
  }

  lemma {:induction false} JumpOrigin(m: Module, keys: Keys, n: nat, p: Patch)
    requires n <= |m.live|
    ensures p in JumpPatches(m, keys, n) <==> exists i :: 0 <= i < n && FromEntry(m, m.live[i], keys, p)
  {
    hide FromEntry, EntryPatches, Skipped;
    if n > 0 {
      JumpOrigin(m, keys, n - 1, p);
      EntryPart(m, keys, m.live[n - 1], p);
    }
  }

  lemma EntryPart(m: Module, keys: Keys, e: JumpEntry, p: Patch)
    requires e in m.live
    ensures p in (if Skipped(m, e) then [] else EntryPatches(m, e, keys, |m.table|)) <==> FromEntry(m, e, keys, p)
  {
    hide EntryPatches;
    if !Skipped(m, e) { EntryPatchesMatch(m, keys, e, p); }
  }

  /** The jump patches are those of the matching entries. */
  lemma JumpPatchesMatch(m: Module, keys: Keys, p: Patch)
    ensures p in JumpPatches(m, keys, |m.live|) <==>
            exists e, t :: Matches(m, e, t) && p == JumpPatch(m, e, t, keys)
  {
    hide JumpPatches, JumpPatch;
    JumpOrigin(m, keys, |m.live|, p);
    if exists e, t :: Matches(m, e, t) && p == JumpPatch(m, e, t, keys) {
      var e, t :| Matches(m, e, t) && p == JumpPatch(m, e, t, keys);
      var i :| 0 <= i < |m.live| && m.live[i] == e;
      assert FromEntry(m, m.live[i], keys, p);
    }
  }

  /** The place of an address in the text that was loaded at `base`. */
  lemma OffsetIs(address: Word, base: Word)
    ensures base <= address ==> Offset(address, base) == address - base
    ensures base > address ==> Offset(address, base) == address - base + 0x1_0000_0000_0000_0000
  {
  }

  lemma OffsetDetermines(a: Word, b: Word, base: Word)
    requires Offset(a, base) == Offset(b, base)
    ensures a == b
  {
  }

  lemma DistinctEntries(entries: seq<JumpEntry>, a: JumpEntry, b: JumpEntry)
    requires Distinct(entries) && a in entries && b in entries && a.code == b.code
    ensures a == b
  {
  }

  lemma SameSiteSamePatch(m: Module, keys: Keys, e: JumpEntry, t: JumpEntry, p: Patch)
    requires Distinct(m.table) && Distinct(m.live) && Matches(m, e, t)
    requires p in JumpPatches(m, keys, |m.live|) && p.at == Offset(t.code, m.base)
    ensures p == JumpPatch(m, e, t, keys)
  {
    JumpPatchesMatch(m, keys, p);
    var e', t' :| Matches(m, e', t') && p == JumpPatch(m, e', t', keys);
    OffsetDetermines(t'.code, t.code, m.base);
    DistinctEntries(m.table, t', t);
    DistinctEntries(m.live, e', e);
  }

  lemma LastIsJump(m: Module, keys: Keys, at: nat)
    requires HasSite(JumpPatches(m, keys, |m.live|), at)
    ensures HasSite(Patches(m, keys), at)
    ensures Patches(m, keys)[LastAt(Patches(m, keys), at)] in JumpPatches(m, keys, |m.live|)
  {
    hide CallPatches, JumpPatches;
    var calls, jumps := CallPatches(m, |m.callSites|), JumpPatches(m, keys, |m.live|);
    var k :| 0 <= k < |jumps| && jumps[k].at == at;
    assert (calls + jumps)[|calls| + k].at == at;
    var last := LastAt(calls + jumps, at);
    assert last >= |calls| + k;
    assert (calls + jumps)[last] == jumps[last - |calls|];
  }

  lemma MatchIsListed(m: Module, keys: Keys, e: JumpEntry, t: JumpEntry)
    requires Matches(m, e, t)
    ensures HasSite(JumpPatches(m, keys, |m.live|), Offset(t.code, m.base))
  {
    hide JumpPatches, Offset, Displacement;
    var p, jumps := JumpPatch(m, e, t, keys), JumpPatches(m, keys, |m.live|);
    JumpPatchesMatch(m, keys, p);
    var k :| 0 <= k < |jumps| && jumps[k] == p;
    assert jumps[k].at == Offset(t.code, m.base);
  }

  lemma CodeOfJump(m: Module, keys: Keys, e: JumpEntry, t: JumpEntry)
    ensures Code(JumpPatch(m, e, t, keys)) == if keys(e.key) != 0 then JumpCode(Displacement(t)) else Nops(SITE_SIZE)
  {
  }

  lemma PatchedJump(m: Module, image: seq<byte>, keys: Keys, e: JumpEntry, t: JumpEntry)
    requires Inside(Patches(m, keys), |image|) && Apart(Patches(m, keys))
    requires Distinct(m.table) && Distinct(m.live) && Matches(m, e, t)
    ensures Offset(t.code, m.base) + SITE_SIZE <= |image|
    ensures Apply(image, Patches(m, keys))[Offset(t.code, m.base)..Offset(t.code, m.base) + SITE_SIZE] ==
            if keys(e.key) != 0 then JumpCode(Displacement(t)) else Nops(SITE_SIZE)
  {
    hide HasSite, Patches, JumpPatches, Nops, JumpCode, JumpPatch, Code, Offset, Displacement, Matches, Distinct,
        Apart, Inside, Apply;
    var at := Offset(t.code, m.base);
    MatchIsListed(m, keys, e, t);
    LastIsJump(m, keys, at);
    SiteHoldsLast(image, Patches(m, keys), at);
    SameSiteSamePatch(m, keys, e, t, Patches(m, keys)[LastAt(Patches(m, keys), at)]);
    CodeOfJump(m, keys, e, t);
  }

  /** The label is listed in the file and in memory, in the part of the text that is applied. */
  predicate Listed(m: Module, e: JumpEntry, t: JumpEntry) {
    e in m.live && t in m.table && e.code == t.code && (m.limit.Some? ==> e.code <= m.limit.value)
  }

  /**
   * At the offset of a label, there is a no-op of five bytes if its key is zero in memory, and otherwise a
   * jump by the distance from its end to the target, cut to 32 bits.
   */
  lemma JumpSiteHolds(m: Module, image: seq<byte>, keys: Keys, e: JumpEntry, t: JumpEntry, at: nat)
    requires Inside(Patches(m, keys), |image|) && Apart(Patches(m, keys))
    requires Distinct(m.table) && Distinct(m.live) && Listed(m, e, t) && t.code == m.base + at
    ensures at + 5 <= |image|
    ensures var code := Apply(image, Patches(m, keys))[at..at + 5];
            if keys(e.key) == 0 then code == [0x66, 0x66, 0x90, 0x66, 0x90]
            else code[0] == 0xe9 && FromLittle(code[1..]) == (t.target - (t.code + 5)) % 0x1_0000_0000
  {
    OffsetIs(t.code, m.base);
    FiveNops();
    JumpBytes(t);
    hide Patches, Apply, Offset, Displacement, Distinct, Apart, Inside, Nops, Nop, JumpCode, FromLittle;
    PatchedJump(m, image, keys, e, t);
  }

  lemma JumpBytes(t: JumpEntry)
    ensures JumpCode(Displacement(t))[0] == 0xe9
    ensures FromLittle(JumpCode(Displacement(t))[1..]) == (t.target - (t.code + 5)) % 0x1_0000_0000
  {
    var d := t.target - (t.code + 5);
    LittleWords();
    ConvertIdentity(d, INT32);
    LittleRoundTrip(Low(Displacement(t), W32), 4);
    assert JumpCode(Displacement(t))[1..] == Little(Low(Displacement(t), W32), 4);
  }

  lemma {:induction false} CallOrigin(m: Module, n: nat, p: Patch)
    requires n <= |m.callSites|
    ensures p in CallPatches(m, n) <==> exists i :: 0 <= i < n && p == Nopped(Offset(m.callSites[i], m.base))
  {
    if n > 0 { CallOrigin(m, n - 1, p); }
  }

  /** The key of every label there is zero. */
  ghost predicate SwitchedOff(m: Module, keys: Keys, code: Word) {
    forall e, t :: Listed(m, e, t) && t.code == code ==> keys(e.key) == 0
  }

  lemma PatchedCall(m: Module, image: seq<byte>, keys: Keys, i: nat)
    requires Inside(Patches(m, keys), |image|) && Apart(Patches(m, keys))
    requires i < |m.callSites|
    requires SwitchedOff(m, keys, m.callSites[i])
    ensures Offset(m.callSites[i], m.base) + SITE_SIZE <= |image|
    ensures Apply(image, Patches(m, keys))[Offset(m.callSites[i], m.base)..Offset(m.callSites[i], m.base) + SITE_SIZE]
            == Nops(SITE_SIZE)
  {
    hide Offset, Nops, Apart, Inside, HasSite, Apply, CallPatches, JumpPatches, SwitchedOff;
    var at, ps := Offset(m.callSites[i], m.base), Patches(m, keys);
    CallIsListed(m, keys, i);
    SiteHoldsLast(image, ps, at);
    LastAtCall(m, keys, i, ps[LastAt(ps, at)]);
  }

  /** At the offset of a call site there is a no-op of five bytes, unless a label there is switched on. */
  lemma CallSiteHolds(m: Module, image: seq<byte>, keys: Keys, i: nat, at: nat)
    requires Inside(Patches(m, keys), |image|) && Apart(Patches(m, keys))
    requires i < |m.callSites| && m.callSites[i] == m.base + at
    requires SwitchedOff(m, keys, m.callSites[i])
    ensures at + 5 <= |image| && Apply(image, Patches(m, keys))[at..at + 5] == [0x66, 0x66, 0x90, 0x66, 0x90]
  {
    hide Patches, Apply, Offset, Apart, Inside, Nops, Nop, SwitchedOff;
    OffsetIs(m.callSites[i], m.base);
    FiveNops();
    PatchedCall(m, image, keys, i);
  }

  predicate Within(address: Word, x: int) { address <= x < address + 5 }

  /** No call site, and no site of a label that is applied, covers the address. */
  ghost predicate Untouched(m: Module, x: int) {
    && (forall i :: 0 <= i < |m.callSites| ==> !Within(m.callSites[i], x))
    && (forall e, t :: Listed(m, e, t) ==> !Within(t.code, x))
  }

  /** A byte stays as it is where no call site and no label is. */
  lemma OtherBytesStay(m: Module, image: seq<byte>, keys: Keys, x: nat)
    requires Inside(Patches(m, keys), |image|) && m.base + |image| <= 0x1_0000_0000_0000_0000
    requires x < |image| && Untouched(m, m.base + x)
    ensures Apply(image, Patches(m, keys))[x] == image[x]
  {
    hide Apply, CallPatches, JumpPatches, Inside, Untouched;
    var ps := Patches(m, keys);
    forall k | 0 <= k < |ps| ensures !Covers(ps[k], x) {
      assert ps[k] in ps;
      PatchIsListed(m, keys, ps[k], x, |image|);
    }
    OnlySitesChange(image, ps, x);
  }

  lemma PatchIsListed(m: Module, keys: Keys, p: Patch, x: nat, size: nat)
    requires p in Patches(m, keys) && m.base + size <= 0x1_0000_0000_0000_0000 && x < size
    requires Untouched(m, m.base + x)
    ensures !Covers(p, x)
  {
    hide CallPatches, JumpPatches, Offset;
    if p in JumpPatches(m, keys, |m.live|) {
      JumpPatchesMatch(m, keys, p);
      var e, t :| Matches(m, e, t) && p == JumpPatch(m, e, t, keys);
      assert Listed(m, e, t);
      OffsetIs(t.code, m.base);
    } else {
      CallOrigin(m, |m.callSites|, p);
      var i :| 0 <= i < |m.callSites| && p == Nopped(Offset(m.callSites[i], m.base));
      OffsetIs(m.callSites[i], m.base);
    }
  }

  lemma CallIsListed(m: Module, keys: Keys, i: nat)
    requires i < |m.callSites|
    ensures HasSite(Patches(m, keys), Offset(m.callSites[i], m.base))
  {
    hide CallPatches, JumpPatches, Offset;
    var p, calls := Nopped(Offset(m.callSites[i], m.base)), CallPatches(m, |m.callSites|);
    CallOrigin(m, |m.callSites|, p);
    var k :| 0 <= k < |calls| && calls[k] == p;
    assert Patches(m, keys)[k].at == Offset(m.callSites[i], m.base);
  }

  lemma LastAtCall(m: Module, keys: Keys, i: nat, p: Patch)
    requires i < |m.callSites| && p in Patches(m, keys) && p.at == Offset(m.callSites[i], m.base)
    requires SwitchedOff(m, keys, m.callSites[i])
    ensures Code(p) == Nops(SITE_SIZE)
  {
    hide CallPatches, JumpPatches, Nops, JumpCode;
    if p in JumpPatches(m, keys, |m.live|) {
      JumpPatchesMatch(m, keys, p);
      var e, t :| Matches(m, e, t) && p == JumpPatch(m, e, t, keys);
      assert Listed(m, e, t);
      OffsetDetermines(t.code, m.callSites[i], m.base);
    } else {
      CallOrigin(m, |m.callSites|, p);
    }
  }

  predicate OnlyJumps(ps: seq<Patch>) {
    forall k :: 0 <= k < |ps| ==> ps[k].Jumped?
  }

  lemma HasSiteFront(ps: seq<Patch>, at: nat)
    requires ps != []
    ensures HasSite(ps, at) <==> ps[|ps| - 1].at == at || HasSite(ps[..|ps| - 1], at)
  {
    var front := ps[..|ps| - 1];
    if HasSite(ps, at) {
      var k :| 0 <= k < |ps| && ps[k].at == at;
      assert k < |front| ==> front[k].at == at;
    }
    if HasSite(front, at) {
      var k :| 0 <= k < |front| && front[k].at == at;
      assert ps[k].at == at;
    }
  }

  lemma {:induction false} RecordedIsLast(ps: seq<Patch>, at: nat)
    requires OnlyJumps(ps)
    ensures at in Recorded(map[], ps) <==> HasSite(ps, at)
    ensures HasSite(ps, at) ==> ps[LastAt(ps, at)].Jumped? && Recorded(map[], ps)[at] == ps[LastAt(ps, at)].destination
  {
    if ps != [] {
      HasSiteFront(ps, at);
      RecordedIsLast(ps[..|ps| - 1], at);
    }
  }

  lemma JumpsAreJumps(m: Module, keys: Keys)
    ensures OnlyJumps(JumpPatches(m, keys, |m.live|))
  {
    hide JumpPatches;
    var jumps := JumpPatches(m, keys, |m.live|);
    forall k | 0 <= k < |jumps| ensures jumps[k].Jumped? {
      JumpPatchesMatch(m, keys, jumps[k]);
    }
  }

  /** What is noted for an offset is the displacement of the jump found there while its key is set. */
  lemma NotedJumpIsThere(image: seq<byte>, m: Module, keys: Keys, at: nat)
    requires Inside(JumpPatches(m, keys, |m.live|), |image|) && Apart(JumpPatches(m, keys, |m.live|))
    requires at in Recorded(map[], JumpPatches(m, keys, |m.live|))
    ensures at + SITE_SIZE <= |image|
    ensures var code := Apply(image, JumpPatches(m, keys, |m.live|))[at..at + SITE_SIZE];
            code == Nops(SITE_SIZE) || code == JumpCode(Recorded(map[], JumpPatches(m, keys, |m.live|))[at])
  {
    hide JumpPatches, Recorded, Apply, HasSite, Nops, JumpCode;
    JumpsAreJumps(m, keys);
    RecordedIsLast(JumpPatches(m, keys, |m.live|), at);
    SiteHoldsLast(image, JumpPatches(m, keys, |m.live|), at);
  }

  // ---- Where a jump leads ----

  /** What the processor makes of five bytes at an address: the target of a jump, if they are one. */
  function Decode(code: seq<byte>, address: Word): Option<Word>
    requires |code| == SITE_SIZE
  {
    if code[0] == JUMP then Some(ToWord(address + SITE_SIZE + Signed(FromLittle(code[1..]), W32))) else None
  }

  /** The target is within reach of a 32-bit displacement. */
  predicate InReach(e: JumpEntry) {
    InRange(Signed(e.target - (e.code + SITE_SIZE), W64), INT32)
  }

  lemma DecodeJump(d: int, address: Word)
    ensures Decode(JumpCode(d), address) == Some(ToWord(address + SITE_SIZE + Signed(d, W32)))
  {
    LittleWords();
    LittleRoundTrip(Low(d, W32), 4);
    assert JumpCode(d)[1..] == Little(Low(d, W32), 4);
  }

  lemma SignedTwice(d: int)
    ensures Signed(Signed(d, W32), W32) == Signed(d, W32)
  {
  }

  lemma ReachesIff(d: int, from: int, target: Word)
    requires d == target - from
    ensures ToWord(from + Signed(d, W32)) == target <==> InRange(Signed(d, W64), INT32)
  {
    SignedCongruent(d, W32);
    ConvertIdentity(d, INT64);
    WordOfSum(from, Signed(d, W32), target);
    ReachNumbers(d);
  }

  lemma SignedCongruent(d: int, w: Width)
    ensures Low(Signed(d, w), w) == Low(d, w)
  {
    ConvertIdentity(d, Size(w, false));
  }

  lemma WordOfSum(from: int, s: int, target: Word)
    ensures ToWord(from + s) == target <==> ToWord(s) == ToWord(target - from)
  {
    var a, b, c := (from + s) / TWO_64, s / TWO_64, (target - from) / TWO_64;
    assert from + s == a * TWO_64 + ToWord(from + s);
    assert s == b * TWO_64 + ToWord(s);
    assert target - from == c * TWO_64 + ToWord(target - from);
  }

  lemma ReachNumbers(d: int)
    ensures ToWord(Signed(d, W32)) == ToWord(d) <==> InRange(Signed(d, W64), INT32)
  {
    var s, w := Signed(d, W32), Signed(d, W64);
    if ToWord(s) == ToWord(d) {
      assert Signed(s, W64) == w;
      assert s == w;
    }
    if InRange(w, INT32) {
      LowOfWord(d, W32);
      LowOfWord(w, W32);
      assert ToWord(w) == ToWord(d);
      assert Low(w, W32) == Low(d, W32);
    }
  }

  /** An applied jump leads to its entry's target exactly if that is within reach. */
  lemma JumpLeadsToTarget(e: JumpEntry)
    ensures Decode(JumpCode(Displacement(e)), e.code) == Some(e.target) <==> InReach(e)
  {
    var d := e.target - (e.code + SITE_SIZE);
    DecodeJump(Displacement(e), e.code);
    SignedTwice(d);
    ReachesIff(d, e.code + SITE_SIZE, e.target);
  }

  /** So in the updated image a label whose key is set leads to its target exactly then. */
  lemma ImageLeadsToTarget(m: Module, image: seq<byte>, keys: Keys, e: JumpEntry, t: JumpEntry, at: nat)
    requires Inside(Patches(m, keys), |image|) && Apart(Patches(m, keys))
    requires Distinct(m.table) && Distinct(m.live) && Listed(m, e, t) && t.code == m.base + at && keys(e.key) != 0
    ensures at + 5 <= |image|
    ensures Decode(Apply(image, Patches(m, keys))[at..at + 5], t.code) == Some(t.target) <==>
              -0x8000_0000 <= Signed(t.target - (t.code + 5), W64) < 0x8000_0000
  {
    OffsetIs(t.code, m.base);
    hide Patches, Apply, Decode, JumpCode, Displacement, Distinct, Apart, Inside, Offset, Signed;
    PatchedJump(m, image, keys, e, t);
    JumpLeadsToTarget(t);
  }

  /** The displacement of every label that is applied is noted at its offset. */
  lemma JumpIsNoted(m: Module, keys: Keys, e: JumpEntry, t: JumpEntry, at: nat)
    requires Distinct(m.table) && Distinct(m.live) && Listed(m, e, t) && t.code == m.base + at
    ensures var noted := Recorded(map[], JumpPatches(m, keys, |m.live|));
            at in noted && -0x8000_0000 <= noted[at] < 0x8000_0000
            && noted[at] % 0x1_0000_0000 == (t.target - (t.code + 5)) % 0x1_0000_0000
  {
    OffsetIs(t.code, m.base);
    ConvertIdentity(t.target - (t.code + SITE_SIZE), INT32);
    hide JumpPatches, Recorded, Offset, Distinct, HasSite;
    var jumps := JumpPatches(m, keys, |m.live|);
    MatchIsListed(m, keys, e, t);
    JumpsAreJumps(m, keys);
    RecordedIsLast(jumps, at);
    SameSiteSamePatch(m, keys, e, t, jumps[LastAt(jumps, at)]);
  }

  /** Nothing else is noted. */
  lemma OnlyJumpsAreNoted(m: Module, keys: Keys, at: nat)
    requires at in Recorded(map[], JumpPatches(m, keys, |m.live|)) && m.base + at < 0x1_0000_0000_0000_0000
    ensures exists e, t :: Listed(m, e, t) && t.code == m.base + at
  {
    hide JumpPatches, Recorded, Offset;
    var jumps := JumpPatches(m, keys, |m.live|);
    JumpsAreJumps(m, keys);
    RecordedIsLast(jumps, at);
    var k :| 0 <= k < |jumps| && jumps[k].at == at;
    JumpPatchesMatch(m, keys, jumps[k]);
    var e, t :| Matches(m, e, t) && jumps[k] == JumpPatch(m, e, t, keys);
    OffsetIs(t.code, m.base);
    assert Listed(m, e, t);
  }

  /** A jump over exactly four gigabytes leads to the next instruction. */
  lemma FarJumpMisses()
    ensures var e := JumpEntry(0, 0x1_0000_0005, 0);
            Decode(JumpCode(Displacement(e)), e.code) == Some(5) && e.target != 5
  {
    var e := JumpEntry(0, 0x1_0000_0005, 0);
    hide Decode, JumpCode;
    assert Displacement(e) == 0;
    DecodeJump(0, e.code);
  }

  // ---- The loops ----

  lemma ApplyOne(image: seq<byte>, ps: seq<Patch>, p: Patch)
    requires Inside(ps, |image|) && p.at + SITE_SIZE <= |image|
    ensures Inside(ps + [p], |image|)
    ensures Apply(image, ps + [p]) == Store(Apply(image, ps), p.at, Code(p))
  {
    assert (ps + [p])[..|ps|] == ps;
  }

  lemma {:induction false} ApplyJoin(image: seq<byte>, ps: seq<Patch>, qs: seq<Patch>)
    requires Inside(ps, |image|) && Inside(qs, |image|)
    ensures Inside(ps + qs, |image|)
    ensures Apply(image, ps + qs) == Apply(Apply(image, ps), qs)
  {
    hide Code, Store;
    if qs == [] {
      assert ps + qs == ps;
    } else {
      var front, last := qs[..|qs| - 1], qs[|qs| - 1];
      InsideFront(qs, |image|);
      LastFits(qs, |image|);
      hide Inside;
      ApplyJoin(image, ps, front);
      assert ps + qs == (ps + front) + [last];
      ApplyOne(image, ps + front, last);
    }
  }

  lemma RecordedOne(table: map<nat, int>, ps: seq<Patch>, p: Patch)
    ensures Recorded(table, ps + [p]) ==
            if p.Jumped? then Recorded(table, ps)[p.at := p.destination] else Recorded(table, ps)
  {
    assert (ps + [p])[..|ps|] == ps;
  }

  /** Pads `len` bytes from `at` on with no-ops of at most eight bytes each. */
  method AddNops(text: array<byte>, at: nat, len: byte)
    requires at + len <= text.Length
    modifies text
    ensures text[..] == Store(old(text[..]), at, Nops(len))
  {
    ghost var image := text[..];
    var insns: nat, left: nat := at, len;
    ghost var done: seq<byte> := [];
    NoNops(image, at);
    hide Store, Nops, Nop, PartOf;
    while left > 0
      invariant left <= len && insns + left == at + len && |done| == len - left
      invariant PartOf(done, left, len)
      invariant text[..] == Store(image, at, done)
    {
      var n := if left > MAX_NOP_SIZE then MAX_NOP_SIZE else left;
      StepNops(done, left, n, len);
      CopyNop(text, insns, n, image, at, done);
      done := done + Nop(n);
      insns := insns + n;
      left := left - n;
    }
    AllNops(done, len);
  }

  method CopyNop(text: array<byte>, insns: nat, n: nat, ghost image: seq<byte>, ghost at: nat, ghost done: seq<byte>)
    requires 1 <= n <= MAX_NOP_SIZE && insns == at + |done| && insns + n <= text.Length && |image| == text.Length
    requires text[..] == Store(image, at, done)
    modifies text
    ensures text[..] == Store(image, at, done + Nop(n))
  {
    hide Store, Nop;
    StoreOn(image, at, done, Nop(n));
    Copy(text, insns, Nop(n));
  }

  predicate PartOf(done: seq<byte>, left: nat, len: nat) { done + Nops(left) == Nops(len) }

  lemma AllNops(done: seq<byte>, len: nat)
    requires PartOf(done, 0, len)
    ensures done == Nops(len)
  {
    assert done + [] == done;
  }

  lemma NoNops(image: seq<byte>, at: nat)
    requires at <= |image|
    ensures Store(image, at, []) == image
  {
  }

  lemma StoreOn(image: seq<byte>, at: nat, a: seq<byte>, b: seq<byte>)
    requires at + |a| + |b| <= |image|
    ensures Store(Store(image, at, a), at + |a|, b) == Store(image, at, a + b)
  {
  }

  lemma StepNops(done: seq<byte>, left: nat, n: nat, len: nat)
    requires left > 0 && n == if left > MAX_NOP_SIZE then MAX_NOP_SIZE else left
    requires PartOf(done, left, len)
    ensures PartOf(done + Nop(n), left - n, len)
  {
    hide Nop;
    assert done + (Nop(n) + Nops(left - n)) == done + Nop(n) + Nops(left - n);
  }

  datatype PageData = PageData(content: seq<byte>, hash: seq<byte>)

  function Contents(pages: seq<PageData>): seq<byte> {
    if pages == [] then [] else Contents(pages[..|pages| - 1]) + pages[|pages| - 1].content
  }

  function Zeros(n: nat): (z: seq<byte>)
    ensures |z| == n && forall i :: 0 <= i < n ==> z[i] == 0
  {
    seq(n, i => 0)
  }

  lemma OneMorePage(pages: seq<PageData>, page: PageData)
    ensures Contents(pages + [page]) == Contents(pages) + page.content
  {
    assert (pages + [page])[..|pages|] == pages;
  }

  class ModuleImage {
    var text: array<byte>
    /** Displacements by offset in the text, noted by the first run that has any. */
    var jumpEntries: map<nat, int>
    var pages: seq<PageData>

    method ApplyMcount(m: Module)
      requires Inside(CallPatches(m, |m.callSites|), text.Length)
      modifies text
      ensures text[..] == Apply(old(text[..]), CallPatches(m, |m.callSites|))
    {
      var i := 0;
      NothingApplied(text[..], jumpEntries);
      assert CallPatches(m, 0) == [];
      hide Code, Store, Offset, CallPatches, Apply, Inside;
      while i < |m.callSites|
        invariant 0 <= i <= |m.callSites|
        invariant Inside(CallPatches(m, i), text.Length)
        invariant text[..] == Apply(old(text[..]), CallPatches(m, i))
      {
        CallInside(m, i, text.Length);
        CallTaken(m, i, old(text[..]));
        AddNops(text, Offset(m.callSites[i], m.base), SITE_SIZE);
        i := i + 1;
      }
    }

    /** The patches in `done` have been applied to `image`, and noted if `adding`. */
    ghost predicate Applied(image: seq<byte>, table: map<nat, int>, adding: bool, done: seq<Patch>)
      reads this`text, this`jumpEntries, text
    {
      |image| == text.Length && Inside(done, |image|) && text[..] == Apply(image, done)
      && jumpEntries == if adding then Recorded(table, done) else table
    }

    /** Writes a jump or a no-op at the site of entry `t`, and notes where the jump goes. */
    method PatchSite(m: Module, t: JumpEntry, enabled: bool, addJumpEntries: bool,
                     ghost image: seq<byte>, ghost table: map<nat, int>, ghost done: seq<Patch>)
      requires Applied(image, table, addJumpEntries, done) && Offset(t.code, m.base) + SITE_SIZE <= |image|
      modifies this`jumpEntries, text
      ensures Applied(image, table, addJumpEntries, done + [Jumped(Offset(t.code, m.base), Displacement(t), enabled)])
    {
      hide Nops, Offset, Displacement, Inside, Apply, Recorded;
      var patchOffset := Offset(t.code, m.base);
      var destination := Displacement(t);
      ghost var p := Jumped(patchOffset, destination, enabled);
      ApplyOne(image, done, p);
      RecordedOne(table, done, p);
      if addJumpEntries {
        jumpEntries := jumpEntries[patchOffset := destination];
      }
      if enabled {
        JumpInParts(text[..], patchOffset, destination);
        hide Store, JumpCode;
        Copy(text, patchOffset, [JUMP]);
        Copy(text, patchOffset + 1, Little(Low(destination, W32), 4));
      } else {
        hide Store;
        AddNops(text, patchOffset, SITE_SIZE);
      }
    }

    /** Applies the file's entry or entries for one jump label of the running system. */
    method ApplyEntry(m: Module, keys: Keys, i: nat, addJumpEntries: bool,
                      ghost image: seq<byte>, ghost table: map<nat, int>, ghost before: seq<Patch>)
      requires i < |m.live| && !Skipped(m, m.live[i]) && Applied(image, table, addJumpEntries, before)
      requires Inside(JumpPatches(m, keys, |m.live|), |image|)
      modifies this`jumpEntries, text
      ensures Applied(image, table, addJumpEntries, before + EntryPatches(m, m.live[i], keys, |m.table|))
    {
      hide Offset, Displacement, JumpPatches, EntryPatches, Inside, Applied, Skipped;
      var e := m.live[i];
      var enabled := keys(e.key) != 0;
      var j := 0;
      ghost var done := before;
      NoEntries(m, e, keys, before);
      while j < |m.table|
        invariant 0 <= j <= |m.table|
        invariant done == before + EntryPatches(m, e, keys, j)
        invariant Applied(image, table, addJumpEntries, done)
      {
        var t := m.table[j];
        if e.code == t.code {
          MatchInside(m, keys, i, j, |image|);
          EntryTaken(m, keys, e, j, before);
          PatchSite(m, t, enabled, addJumpEntries, image, table, done);
          done := done + [JumpPatch(m, e, t, keys)];
        } else {
          EntryPassed(m, keys, e, j);
        }
        j := j + 1;
      }
    }

    method ApplyLabels(m: Module, keys: Keys, addJumpEntries: bool, ghost image: seq<byte>, ghost table: map<nat, int>)
      requires Applied(image, table, addJumpEntries, []) && Inside(JumpPatches(m, keys, |m.live|), |image|)
      modifies this`jumpEntries, text
      ensures Applied(image, table, addJumpEntries, JumpPatches(m, keys, |m.live|))
    {
      var i := 0;
      NoLabels(m, keys);
      hide EntryPatches, Inside, Applied, JumpPatches, Skipped;
      while i < |m.live|
        invariant 0 <= i <= |m.live|
        invariant Applied(image, table, addJumpEntries, JumpPatches(m, keys, i))
      {
        if Skipped(m, m.live[i]) {
          LabelPassed(m, keys, i);
        } else {
          LabelTaken(m, keys, i);
          ApplyEntry(m, keys, i, addJumpEntries, image, table, JumpPatches(m, keys, i));
        }
        i := i + 1;
      }
    }

    /** Applies the jump labels of the running system. */
    method ApplyJumpEntries(m: Module, keys: Keys)
      requires Inside(JumpPatches(m, keys, |m.live|), text.Length)
      modifies this`jumpEntries, text
      ensures text[..] == Apply(old(text[..]), JumpPatches(m, keys, |m.live|))
      ensures jumpEntries ==
              if old(jumpEntries) == map[] then Recorded(map[], JumpPatches(m, keys, |m.live|)) else old(jumpEntries)
    {
      hide JumpPatches;
      NothingApplied(text[..], jumpEntries);
      hide Apply, Recorded, Inside;
      ApplyLabels(m, keys, jumpEntries == map[], text[..], jumpEntries);
    }

    /** Brings the image of a module up to date and cuts it into hashed pages. */
    method UpdateKernelModule(m: Module, keys: Keys, sha1: seq<byte> -> seq<byte>)
      requires Inside(Patches(m, keys), text.Length)
      modifies this`jumpEntries, this`pages, text
      ensures text[..] == Apply(old(text[..]), Patches(m, keys))
      ensures jumpEntries == if old(jumpEntries) == map[] then Recorded(map[], JumpPatches(m, keys, |m.live|))
                else old(jumpEntries)
      ensures Contents(pages) == text[..] + Zeros((4096 - text.Length % 4096) % 4096)
      ensures forall k :: 0 <= k < |pages| ==> |pages[k].content| == 4096 && pages[k].hash == sha1(pages[k].content)
    {
      hide CallPatches, JumpPatches, Apply, Recorded;
      PatchesInside(m, keys, text.Length);
      ApplyJoin(text[..], CallPatches(m, |m.callSites|), JumpPatches(m, keys, |m.live|));
      ApplyMcount(m);
      ApplyJumpEntries(m, keys);
      MakePages(sha1);
    }

    method MakePages(sha1: seq<byte> -> seq<byte>)
      modifies this`pages
      ensures Contents(pages) == text[..] + Zeros((4096 - text.Length % 4096) % 4096)
      ensures forall k :: 0 <= k < |pages| ==> |pages[k].content| == 4096 && pages[k].hash == sha1(pages[k].content)
    {
      pages := [];
      assert Contents(pages) == [];
      hide Contents, Zeros;
      var size := text.Length;
      var i := 0;
      while i <= size / PAGE
        invariant 0 <= i <= size / PAGE + 1
        invariant i * PAGE <= size ==> Contents(pages) == text[..i * PAGE]
        invariant i * PAGE > size ==> Contents(pages) == text[..] + Zeros((PAGE - size % PAGE) % PAGE)
        invariant forall k :: 0 <= k < |pages| ==> |pages[k].content| == PAGE && pages[k].hash == sha1(pages[k].content)
      {
        var end := if (i + 1) * PAGE < size then (i + 1) * PAGE else size;
        var segment := text[i * PAGE..end];
        if segment != [] {
          var content := segment + Zeros(PAGE - |segment|);
          OneMorePage(pages, PageData(content, sha1(content)));
          PageFills(text[..], i, end, Contents(pages));
          pages := pages + [PageData(content, sha1(content))];
        } else {
          NoPadding(text[..]);
        }
        i := i + 1;
      }
    }
  }

  lemma NoPadding(text: seq<byte>)
    ensures text + Zeros(0) == text
  {
  }

  lemma PageFills(text: seq<byte>, i: nat, end: nat, before: seq<byte>)
    requires i * PAGE < |text| && end == (if (i + 1) * PAGE < |text| then (i + 1) * PAGE else |text|)
    requires before == text[..i * PAGE]
    ensures 0 < end - i * PAGE <= PAGE
    ensures (i + 1) * PAGE <= |text| ==>
              before + (text[i * PAGE..end] + Zeros(PAGE - (end - i * PAGE))) == text[..(i + 1) * PAGE]
    ensures (i + 1) * PAGE > |text| ==>
              before + (text[i * PAGE..end] + Zeros(PAGE - (end - i * PAGE))) ==
                        text + Zeros((PAGE - |text| % PAGE) % PAGE)
  {
  }

  lemma JumpInParts(image: seq<byte>, at: nat, destination: int)
    requires at + SITE_SIZE <= |image|
    ensures Store(Store(image, at, [JUMP]), at + 1, Little(Low(destination, W32), 4)) ==
              Store(image, at, JumpCode(destination))
  {
    StoreOn(image, at, [JUMP], Little(Low(destination, W32), 4));
  }

  lemma NothingApplied(image: seq<byte>, table: map<nat, int>)
    ensures Inside([], |image|) && Apply(image, []) == image
    ensures Recorded(table, []) == table
  {
  }

  lemma NoLabels(m: Module, keys: Keys)
    ensures JumpPatches(m, keys, 0) == []
  {
  }

  lemma PatchesInside(m: Module, keys: Keys, size: nat)
    requires Inside(Patches(m, keys), size)
    ensures Inside(CallPatches(m, |m.callSites|), size) && Inside(JumpPatches(m, keys, |m.live|), size)
  {
    hide CallPatches, JumpPatches;
    var calls, jumps := CallPatches(m, |m.callSites|), JumpPatches(m, keys, |m.live|);
    assert forall k :: 0 <= k < |calls| ==> (calls + jumps)[k] == calls[k];
    forall k | 0 <= k < |jumps| ensures jumps[k].at + SITE_SIZE <= size {
      assert (calls + jumps)[|calls| + k] == jumps[k];
    }
  }

  lemma MatchInside(m: Module, keys: Keys, i: nat, j: nat, size: nat)
    requires i < |m.live| && j < |m.table| && m.live[i].code == m.table[j].code && !Skipped(m, m.live[i])
    requires Inside(JumpPatches(m, keys, |m.live|), size)
    ensures Offset(m.table[j].code, m.base) + SITE_SIZE <= size
  {
    hide JumpPatches, Skipped;
    MatchIsListed(m, keys, m.live[i], m.table[j]);
    var k :| 0 <= k < |JumpPatches(m, keys, |m.live|)| && JumpPatches(m, keys, |m.live|)[k].at ==
        Offset(m.table[j].code, m.base);
  }

  lemma CallTaken(m: Module, i: nat, image: seq<byte>)
    requires i < |m.callSites| && Inside(CallPatches(m, i), |image|)
    requires Offset(m.callSites[i], m.base) + SITE_SIZE <= |image|
    ensures Inside(CallPatches(m, i + 1), |image|)
    ensures Apply(image, CallPatches(m, i + 1)) ==
            Store(Apply(image, CallPatches(m, i)), Offset(m.callSites[i], m.base), Nops(SITE_SIZE))
  {
    hide Store, Offset, Inside, Apply, Nops;
    ApplyOne(image, CallPatches(m, i), Nopped(Offset(m.callSites[i], m.base)));
  }

  lemma NoEntries(m: Module, e: JumpEntry, keys: Keys, before: seq<Patch>)
    ensures before == before + EntryPatches(m, e, keys, 0)
  {
  }

  lemma EntryTaken(m: Module, keys: Keys, e: JumpEntry, j: nat, before: seq<Patch>)
    requires j < |m.table| && e.code == m.table[j].code
    ensures before + EntryPatches(m, e, keys, j + 1) ==
            before + EntryPatches(m, e, keys, j) + [JumpPatch(m, e, m.table[j], keys)]
  {
    hide Offset, Displacement;
    var p, patches := JumpPatch(m, e, m.table[j], keys), EntryPatches(m, e, keys, j);
    assert EntryPatches(m, e, keys, j + 1) == patches + [p];
    assert before + patches + [p] == before + (patches + [p]);
  }

  lemma EntryPassed(m: Module, keys: Keys, e: JumpEntry, j: nat)
    requires j < |m.table| && e.code != m.table[j].code
    ensures EntryPatches(m, e, keys, j + 1) == EntryPatches(m, e, keys, j)
  {
    assert EntryPatches(m, e, keys, j) + [] == EntryPatches(m, e, keys, j);
  }

  lemma LabelTaken(m: Module, keys: Keys, i: nat)
    requires i < |m.live| && !Skipped(m, m.live[i])
    ensures JumpPatches(m, keys, i + 1) == JumpPatches(m, keys, i) + EntryPatches(m, m.live[i], keys, |m.table|)
  {
    hide EntryPatches, Skipped;
  }

  lemma LabelPassed(m: Module, keys: Keys, i: nat)
    requires i < |m.live| && Skipped(m, m.live[i])
    ensures JumpPatches(m, keys, i + 1) == JumpPatches(m, keys, i)
  {
    assert JumpPatches(m, keys, i) + [] == JumpPatches(m, keys, i);
  }

  lemma {:induction false} CallInside(m: Module, i: nat, size: nat)
    requires i < |m.callSites| && Inside(CallPatches(m, |m.callSites|), size)
    ensures Offset(m.callSites[i], m.base) + SITE_SIZE <= size
  {
    var p, calls := Nopped(Offset(m.callSites[i], m.base)), CallPatches(m, |m.callSites|);
    CallOrigin(m, |m.callSites|, p);
    var k :| 0 <= k < |calls| && calls[k] == p;
    assert calls[k].at + SITE_SIZE <= size;
  }
}
