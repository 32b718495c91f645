/** The initial stack of a user program (section 3.4.1 of the System V AMD64 psABI). */
module StackInit {
  import opened Common
  import opened UserMemory

  const TOP: nat := 0x7FFF_FFFF_E000
  const SIZE: nat := 8 * 1024 * 1024
  const BOTTOM: nat := TOP - SIZE
  const MAX_ARGC: nat := 256
  const MAX_ARG_STRLEN: nat := 4096

  /** A string without its terminator. */
  type CString = s: seq<Octet> | forall i :: 0 <= i < |s| ==> s[i] != 0 witness []

  /** Only bytes in `lo <= x < hi` may differ. */
  ghost predicate Only(m: Flat, m': Flat, lo: nat, hi: nat)
  {
    m'.Keys == m.Keys && forall x: nat :: x in m && !Pinned(x, lo, hi) ==> m'[x] == m[x]
  }

  predicate Pinned(x: nat, lo: nat, hi: nat) { lo <= x < hi }

  lemma OnlyThen(m: Flat, m1: Flat, m2: Flat, a: nat, b: nat, c: nat)
    requires Only(m, m1, b, c) && Only(m1, m2, a, b) && a <= b <= c
    ensures Only(m, m2, a, c)
  {
  }

  lemma OnlyGet(m: Flat, m': Flat, lo: nat, hi: nat, a: nat, n: nat)
    requires Only(m, m', lo, hi) && Mapped(m, a, n) && (a >= hi || a + n <= lo)
    ensures Mapped(m', a, n) && Get(m', a, n) == Get(m, a, n)
  {
    forall k | 0 <= k < n ensures Get(m', a, n)[k] == Get(m, a, n)[k] { assert In(a + k, a, n); }
  }

  lemma PutOnly(m: Flat, a: nat, bs: seq<Octet>)
    requires Mapped(m, a, |bs|)
    ensures Only(m, Put(m, a, bs), a, a + |bs|)
  {
    assert forall x: nat :: In(x, a, |bs|) <==> Pinned(x, a, a + |bs|);
  }

  ghost predicate StackMapped(m: Flat) { Mapped(m, BOTTOM, SIZE) }

  lemma Part(m: Flat, a: nat, n: nat)
    requires StackMapped(m) && BOTTOM <= a && a + n <= TOP
    ensures Mapped(m, a, n)
  {
    assert forall x: nat :: In(x, a, n) ==> In(x, BOTTOM, SIZE);
  }

  ghost predicate StringAt(m: Flat, p: nat, s: CString)
  {
    Mapped(m, p, |s| + 1) && Get(m, p, |s| + 1) == s + [0]
  }

  /** The words `ws` lie one after the other from `a`. */
  ghost predicate WordsAt(m: Flat, a: nat, ws: seq<nat>)
  {
    forall i :: 0 <= i < |ws| ==> WordIs(m, a + 8 * i, ws[i])
  }

  ghost predicate WordIs(m: Flat, a: nat, w: nat)
  {
    Mapped(m, a, 8) && Word(m, a) == w
  }

  /** Writes bytes just below `sp`; inside the mapped stack the write cannot fail. */
  method Push(mem: Memory, sp: nat, bs: seq<Octet>) returns (next: nat)
    requires mem.Valid() && StackMapped(mem.Bytes()) && BOTTOM + |bs| <= sp <= TOP
    modifies mem
    ensures mem.Valid() && StackMapped(mem.Bytes()) && next == sp - |bs|
    ensures Only(old(mem.Bytes()), mem.Bytes(), next, sp)
    ensures Mapped(mem.Bytes(), next, |bs|) && Get(mem.Bytes(), next, |bs|) == bs
  {
    next := sp - |bs|;
    ghost var m := mem.Bytes();
    Part(m, next, |bs|);
    PutOnly(m, next, bs);
    GetPut(m, next, bs);
    var ok, n := mem.Write(next, bs);
    assert ok && bs[..|bs|] == bs;
  }

  method PushWord(mem: Memory, sp: nat, w: nat) returns (next: nat)
    requires mem.Valid() && StackMapped(mem.Bytes()) && BOTTOM + 8 <= sp <= TOP && w < U64
    modifies mem
    ensures mem.Valid() && StackMapped(mem.Bytes()) && next == sp - 8
    ensures Only(old(mem.Bytes()), mem.Bytes(), next, sp) && WordIs(mem.Bytes(), next, w)
  {
    hide StackMapped, Mapped, Get, Only, Memory.Bytes, Encode, Decode, Power;
    EightBytes();
    DecodeEncode(w, 8);
    next := Push(mem, sp, Encode(w, 8));
  }

  lemma OnlyWords(m: Flat, m': Flat, lo: nat, hi: nat, a: nat, ws: seq<nat>)
    requires Only(m, m', lo, hi) && a >= hi && WordsAt(m, a, ws)
    ensures WordsAt(m', a, ws)
  {
    forall i | 0 <= i < |ws| ensures WordIs(m', a + 8 * i, ws[i]) {
      assert WordIs(m, a + 8 * i, ws[i]);
      OnlyGet(m, m', lo, hi, a + 8 * i, 8);
    }
  }

  lemma WordsJoin(m: Flat, a: nat, v: seq<nat>, w: seq<nat>)
    requires WordsAt(m, a, v) && WordsAt(m, a + 8 * |v|, w)
    ensures WordsAt(m, a, v + w)
  {
    forall i | 0 <= i < |v + w| ensures WordIs(m, a + 8 * i, (v + w)[i]) {
      assert i < |v| ==> WordIs(m, a + 8 * i, v[i]);
      assert i >= |v| ==> WordIs(m, a + 8 * |v| + 8 * (i - |v|), w[i - |v|]);
    }
  }

  /** A word below a block of words. */
  lemma WordBefore(m: Flat, m': Flat, a: nat, w: nat, ws: seq<nat>)
    requires Only(m, m', a, a + 8) && WordIs(m', a, w) && WordsAt(m, a + 8, ws)
    ensures WordsAt(m', a, [w] + ws)
  {
    OnlyWords(m, m', a, a + 8, a + 8, ws);
    WordsJoin(m', a, [w], ws);
  }

  /** Writes the words below `sp`, the last one first, under the block `above` that starts at `sp`. */
  method PushWords(mem: Memory, sp: nat, ws: seq<nat>, ghost above: seq<nat>) returns (next: nat)
    requires mem.Valid() && StackMapped(mem.Bytes()) && BOTTOM + 8 * |ws| <= sp <= TOP
    requires (forall i :: 0 <= i < |ws| ==> ws[i] < U64) && WordsAt(mem.Bytes(), sp, above)
    modifies mem
    ensures mem.Valid() && StackMapped(mem.Bytes()) && next == sp - 8 * |ws|
    ensures Only(old(mem.Bytes()), mem.Bytes(), next, sp) && WordsAt(mem.Bytes(), next, ws + above)
  {
    hide StackMapped, Mapped, WordIs, Only, WordsAt, Memory.Bytes;
    next := sp;
    var i := |ws|;
    ghost var m := mem.Bytes();
    OnlySelf(m, sp);
    assert ws[i..] + above == above;
    while i > 0
      invariant 0 <= i <= |ws| && mem.Valid() && StackMapped(mem.Bytes()) && next == sp - 8 * (|ws| - i)
      invariant Only(m, mem.Bytes(), next, sp) && WordsAt(mem.Bytes(), next, ws[i..] + above)
    {
      i := i - 1;
      ghost var m1 := mem.Bytes();
      var below := PushWord(mem, next, ws[i]);
      OnlyThen(m, m1, mem.Bytes(), below, next, sp);
      WordBefore(m1, mem.Bytes(), below, ws[i], ws[i + 1..] + above);
      assert [ws[i]] + (ws[i + 1..] + above) == ws[i..] + above;
      next := below;
    }
    assert ws[0..] == ws;
  }

  lemma OnlySelf(m: Flat, a: nat)
    ensures Only(m, m, a, a)
  {
  }

  ghost function Length(strs: seq<CString>): nat
  {
    if strs == [] then 0 else |strs[0]| + 1 + Length(strs[1..])
  }

  /** Each pointer leads to its string, inside `lo <= x < hi`. */
  ghost predicate Strings(m: Flat, lo: nat, hi: nat, ptrs: seq<nat>, strs: seq<CString>)
  {
    |ptrs| == |strs| && forall i :: 0 <= i < |strs| ==> Located(m, lo, hi, ptrs[i], strs[i])
  }

  ghost predicate Located(m: Flat, lo: nat, hi: nat, p: nat, s: CString)
  {
    lo <= p && p + |s| + 1 <= hi && StringAt(m, p, s)
  }

  lemma StringsKeep(m: Flat, m': Flat, a: nat, lo: nat, hi: nat, ptrs: seq<nat>, strs: seq<CString>)
    requires Strings(m, lo, hi, ptrs, strs) && Only(m, m', a, lo)
    ensures Strings(m', lo, hi, ptrs, strs)
  {
    forall i | 0 <= i < |strs| ensures Located(m', lo, hi, ptrs[i], strs[i]) {
      assert Located(m, lo, hi, ptrs[i], strs[i]);
      OnlyGet(m, m', a, lo, ptrs[i], |strs[i]| + 1);
    }
  }

  lemma StringsWiden(m: Flat, lo: nat, hi: nat, lo': nat, hi': nat, ptrs: seq<nat>, strs: seq<CString>)
    requires Strings(m, lo, hi, ptrs, strs) && lo' <= lo && hi <= hi'
    ensures Strings(m, lo', hi', ptrs, strs)
  {
    forall i | 0 <= i < |strs| ensures Located(m, lo', hi', ptrs[i], strs[i]) {
      assert Located(m, lo, hi, ptrs[i], strs[i]);
    }
  }

  lemma StringBefore(m: Flat, m': Flat, next: nat, lo: nat, hi: nat, s: CString, ptrs: seq<nat>, strs: seq<CString>)
    requires Strings(m, lo, hi, ptrs, strs) && Only(m, m', next, lo) && lo == next + |s| + 1 <= hi && StringAt(m', next, s)
    ensures Strings(m', next, hi, [next] + ptrs, [s] + strs)
  {
    StringsKeep(m, m', next, lo, hi, ptrs, strs);
    StringsWiden(m', lo, hi, next, hi, ptrs, strs);
    forall i | 0 <= i < |strs| + 1 ensures Located(m', next, hi, ([next] + ptrs)[i], ([s] + strs)[i]) {
      assert i > 0 ==> Located(m', next, hi, ptrs[i - 1], strs[i - 1]);
    }
  }

  ghost predicate Short(strs: seq<CString>)
  {
    forall i :: 0 <= i < |strs| ==> |strs[i]| + 1 <= MAX_ARG_STRLEN
  }

  /** Copies one string below `sp`. */
  method PushString(mem: Memory, sp: nat, s: CString) returns (next: nat)
    requires mem.Valid() && StackMapped(mem.Bytes()) && BOTTOM + |s| + 1 <= sp <= TOP
    modifies mem
    ensures mem.Valid() && StackMapped(mem.Bytes()) && next == sp - (|s| + 1)
    ensures Only(old(mem.Bytes()), mem.Bytes(), next, sp) && StringAt(mem.Bytes(), next, s)
  {
    next := Push(mem, sp, s + [0]);
  }

  /** The loops that copy the argument and environment strings, the last one first. */
  method PushStrings(mem: Memory, sp: nat, strs: seq<CString>) returns (ok: bool, next: nat, ptrs: seq<nat>)
    requires mem.Valid() && StackMapped(mem.Bytes()) && BOTTOM <= sp <= TOP
    modifies mem
    ensures mem.Valid() && StackMapped(mem.Bytes()) && BOTTOM <= next <= sp
    ensures ok <==> Short(strs) && BOTTOM + Length(strs) <= sp
    ensures Only(old(mem.Bytes()), mem.Bytes(), next, sp)
    ensures ok ==> next == sp - Length(strs) && Strings(mem.Bytes(), next, sp, ptrs, strs)
  {
    hide StackMapped, Only, StringAt, Strings, Memory.Bytes;
    next, ptrs := sp, [];
    var i := |strs|;
    ghost var m := mem.Bytes();
    OnlySelf(m, sp);
    NoStrings(m, sp);
    assert strs[i..] == [];
    while i > 0
      invariant 0 <= i <= |strs| && mem.Valid() && StackMapped(mem.Bytes()) && BOTTOM <= next <= sp
      invariant next == sp - Length(strs[i..]) && Short(strs[i..]) && Only(m, mem.Bytes(), next, sp)
      invariant Strings(mem.Bytes(), next, sp, ptrs, strs[i..])
    {
      i := i - 1;
      ghost var rest := strs[i + 1..];
      assert strs[i..] == [strs[i]] + rest && strs[i..][1..] == rest;
      Longer(strs, i);
      if |strs[i]| + 1 > MAX_ARG_STRLEN {
        return false, next, ptrs;
      }
      if next < BOTTOM + |strs[i]| + 1 {
        return false, next, ptrs;
      }
      ghost var m1 := mem.Bytes();
      var below := PushString(mem, next, strs[i]);
      OnlyThen(m, m1, mem.Bytes(), below, next, sp);
      StringBefore(m1, mem.Bytes(), below, next, sp, strs[i], ptrs, rest);
      next, ptrs := below, [below] + ptrs;
    }
    assert strs[0..] == strs;
    ok := true;
  }

  lemma NoStrings(m: Flat, sp: nat)
    ensures Strings(m, sp, sp, [], [])
  {
  }

  lemma {:induction false} Longer(strs: seq<CString>, i: nat)
    requires i <= |strs|
    ensures Length(strs[i..]) <= Length(strs)
  {
    if i > 0 {
      Longer(strs[1..], i - 1);
      assert strs[1..][i - 1..] == strs[i..];
    } else {
      assert strs[0..] == strs;
    }
  }

  datatype Image = Image(entry: nat, loadBias: nat, phdr: nat, phent: nat, phnum: nat)

  datatype Cred = Cred(uid: nat, euid: nat, gid: nat, egid: nat)

  /** Where the copied data lies. */
  datatype Copies = Copies(argv: seq<nat>, envp: seq<nat>, execfn: nat, random: nat, platform: nat)

  const RANDOM_SEED: seq<Octet> :=
    [0x41, 0x78, 0x69, 0x6f, 0x6d, 0x2d, 0x4f, 0x53, 0x2d, 0x72, 0x6e, 0x67, 0x2d, 0x31, 0x36, 0x21]
  const PLATFORM: CString := [0x78, 0x38, 0x36, 0x5f, 0x36, 0x34]

  /** Four entries of the auxiliary vector, as alternating types and values. */
  function Four(t0: nat, v0: nat, t1: nat, v1: nat, t2: nat, v2: nat, t3: nat, v3: nat): (ws: seq<nat>)
    ensures |ws| == 8
  {
    [t0, v0, t1, v1, t2, v2, t3, v3]
  }

  /** The auxiliary vector. */
  function Auxv(img: Image, cred: Cred, secure: bool, c: Copies): (ws: seq<nat>)
    ensures |ws| == 40
  {
    Four(3, img.phdr, 4, img.phent, 5, img.phnum, 6, PAGE_SIZE) +
    (Four(7, img.loadBias, 8, 0, 9, img.entry, 11, cred.uid) +
     (Four(12, cred.euid, 13, cred.gid, 14, cred.egid, 15, c.platform) +
      (Four(16, 2, 17, 100, 23, if secure then 1 else 0, 25, c.random) +
       Four(26, 2, 31, c.execfn, 33, 0, 0, 0))))
  }

  /** Everything the pointers refer to, between `lo` and the top of the stack. */
  ghost predicate Copied(m: Flat, lo: nat, c: Copies, argv: seq<CString>, envp: seq<CString>, file: Option<CString>)
  {
    Strings(m, lo, TOP, c.argv, argv) && Strings(m, lo, TOP, c.envp, envp) &&
    (if file.Some? then Located(m, lo, TOP, c.execfn, file.value) else c.execfn == 0) &&
    Seeded(m, lo, c.random) && Located(m, lo, TOP, c.platform, PLATFORM)
  }

  ghost predicate Seeded(m: Flat, lo: nat, p: nat)
  {
    lo <= p && p + 16 <= TOP && Mapped(m, p, 16) && Get(m, p, 16) == RANDOM_SEED
  }

  lemma LocatedKeep(m: Flat, m': Flat, a: nat, lo: nat, p: nat, s: CString)
    requires Located(m, lo, TOP, p, s) && Only(m, m', a, lo)
    ensures Located(m', lo, TOP, p, s)
  {
    OnlyGet(m, m', a, lo, p, |s| + 1);
  }

  lemma SeededKeep(m: Flat, m': Flat, a: nat, lo: nat, p: nat)
    requires Seeded(m, lo, p) && Only(m, m', a, lo)
    ensures Seeded(m', lo, p)
  {
    OnlyGet(m, m', a, lo, p, 16);
  }

  lemma CopiedKeep(m: Flat, m': Flat, a: nat, lo: nat, c: Copies, argv: seq<CString>, envp: seq<CString>, file: Option<CString>)
    requires Copied(m, lo, c, argv, envp, file) && Only(m, m', a, lo)
    ensures Copied(m', lo, c, argv, envp, file)
  {
    hide Only, Strings, Located, Seeded;
    StringsKeep(m, m', a, lo, TOP, c.argv, argv);
    StringsKeep(m, m', a, lo, TOP, c.envp, envp);
    if file.Some? { LocatedKeep(m, m', a, lo, c.execfn, file.value); }
    SeededKeep(m, m', a, lo, c.random);
    LocatedKeep(m, m', a, lo, c.platform, PLATFORM);
  }

  lemma {:induction false} LengthBound(strs: seq<CString>)
    requires Short(strs)
    ensures Length(strs) <= |strs| * MAX_ARG_STRLEN
  {
    if strs != [] {
      assert Short(strs[1..]);
      LengthBound(strs[1..]);
    }
  }

  /** What is to be copied when it is within the limits. */
  ghost predicate Within(argv: seq<CString>, envp: seq<CString>)
  {
    |argv| < MAX_ARGC && |envp| < MAX_ARGC && Short(argv) && Short(envp)
  }

  /** The environment strings and, below them, the argument strings. */
  method CopyVectors(mem: Memory, argv: seq<CString>, envp: seq<CString>) returns (ok: bool, sp: nat, ap: seq<nat>, ep: seq<nat>)
    requires mem.Valid() && StackMapped(mem.Bytes()) && |argv| < MAX_ARGC && |envp| < MAX_ARGC
    modifies mem
    ensures mem.Valid() && StackMapped(mem.Bytes()) && (ok <==> Within(argv, envp))
    ensures ok ==> TOP - 2 * 255 * MAX_ARG_STRLEN <= sp <= TOP && Only(old(mem.Bytes()), mem.Bytes(), sp, TOP)
    ensures ok ==> Strings(mem.Bytes(), sp, TOP, ap, argv) && Strings(mem.Bytes(), sp, TOP, ep, envp)
  {
    hide StackMapped, Only, Strings, Memory.Bytes, Length, Short;
    if Short(argv) { LengthBound(argv); }
    if Short(envp) { LengthBound(envp); }
    ghost var m := mem.Bytes();
    ok, sp, ep := PushStrings(mem, TOP, envp);
    ap := [];
    if !ok {
      return;
    }
    ghost var m1 := mem.Bytes();
    var sp1 := sp;
    ok, sp, ap := PushStrings(mem, sp1, argv);
    if !ok {
      return;
    }
    OnlyThen(m, m1, mem.Bytes(), sp, sp1, TOP);
    StringsKeep(m1, mem.Bytes(), sp, sp1, TOP, ep, envp);
    StringsWiden(mem.Bytes(), sp1, TOP, sp, TOP, ep, envp);
    StringsWiden(mem.Bytes(), sp, sp1, sp, TOP, ap, argv);
  }

  /** The file name, if any, below the vectors. */
  method CopyFile(mem: Memory, sp: nat, file: Option<CString>) returns (next: nat, execfn: nat)
    requires mem.Valid() && StackMapped(mem.Bytes()) && BOTTOM + (if file.Some? then |file.value| + 1 else 0) <= sp <= TOP
    modifies mem
    ensures mem.Valid() && StackMapped(mem.Bytes()) && next == sp - (if file.Some? then |file.value| + 1 else 0)
    ensures Only(old(mem.Bytes()), mem.Bytes(), next, sp)
    ensures if file.Some? then Located(mem.Bytes(), next, sp, execfn, file.value) else execfn == 0
  {
    hide StackMapped, Only, StringAt, Memory.Bytes;
    if file.None? {
      OnlySelf(mem.Bytes(), sp);
      return sp, 0;
    }
    next := PushString(mem, sp, file.value);
    execfn := next;
  }

  /** Everything the pointers will refer to. */
  method CopyAll(mem: Memory, argv: seq<CString>, envp: seq<CString>, file: Option<CString>) returns (ok: bool, sp: nat, c: Copies)
    requires mem.Valid() && StackMapped(mem.Bytes()) && |argv| < MAX_ARGC && |envp| < MAX_ARGC
    requires file.Some? ==> |file.value| <= MAX_ARG_STRLEN
    modifies mem
    ensures mem.Valid() && StackMapped(mem.Bytes()) && (ok <==> Within(argv, envp))
    ensures ok ==> BOTTOM + 8 * 600 <= sp <= TOP && Only(old(mem.Bytes()), mem.Bytes(), sp, TOP)
    ensures ok ==> Copied(mem.Bytes(), sp, c, argv, envp, file)
  {
    hide StackMapped, Only, Strings, StringAt, Memory.Bytes, Within, Mapped, Get;
    ghost var m := mem.Bytes();
    var ap, ep, execfn, sp1;
    c := Copies([], [], 0, 0, 0);
    ok, sp, ap, ep := CopyVectors(mem, argv, envp);
    if !ok {
      return;
    }
    ghost var m1 := mem.Bytes();
    sp1, execfn := CopyFile(mem, sp, file);
    ghost var m2 := mem.Bytes();
    var random := Push(mem, sp1, RANDOM_SEED);
    ghost var m3 := mem.Bytes();
    var platform := PushString(mem, random, PLATFORM);
    c := Copies(ap, ep, execfn, random, platform);
    Stacked(m, m1, m2, m3, mem.Bytes(), sp, sp1, c, argv, envp, file);
    sp := platform;
  }

  /** What was written before stays above what was written later. */
  lemma Stacked(m: Flat, m1: Flat, m2: Flat, m3: Flat, m4: Flat, sp: nat, sp1: nat, c: Copies,
                argv: seq<CString>, envp: seq<CString>, file: Option<CString>)
    requires Only(m, m1, sp, TOP) && Only(m1, m2, sp1, sp) && Only(m2, m3, c.random, sp1) && Only(m3, m4, c.platform, c.random)
    requires c.platform + 7 == c.random && c.random + 16 == sp1 <= sp <= TOP
    requires Strings(m1, sp, TOP, c.argv, argv) && Strings(m1, sp, TOP, c.envp, envp)
    requires if file.Some? then Located(m2, sp1, sp, c.execfn, file.value) else c.execfn == 0
    requires Mapped(m3, c.random, 16) && Get(m3, c.random, 16) == RANDOM_SEED && StringAt(m4, c.platform, PLATFORM)
    ensures Only(m, m4, c.platform, TOP) && Copied(m4, c.platform, c, argv, envp, file)
  {
    hide Only, Strings, StringAt, Mapped, Get;
    OnlyThen(m2, m3, m4, c.platform, c.random, sp1);
    OnlyThen(m1, m2, m4, c.platform, sp1, sp);
    OnlyThen(m, m1, m4, c.platform, sp, TOP);
    StringsKeep(m1, m4, c.platform, sp, TOP, c.argv, argv);
    StringsKeep(m1, m4, c.platform, sp, TOP, c.envp, envp);
    StringsWiden(m4, sp, TOP, c.platform, TOP, c.argv, argv);
    StringsWiden(m4, sp, TOP, c.platform, TOP, c.envp, envp);
    if file.Some? { LocatedKeep(m2, m4, c.platform, sp1, c.execfn, file.value); }
    OnlyGet(m3, m4, c.platform, c.random, c.random, 16);
  }

  datatype Result = Done(sp: nat) | TooBig | NoExec

  /** From the stack pointer up: the count, the two pointer tables, each with a zero behind it, and the auxiliary vector. */
  ghost predicate Laid(m: Flat, sp: nat, c: Copies, aux: seq<nat>)
  {
    var a, e := |c.argv|, |c.envp|;
    WordIs(m, sp, a) && WordsAt(m, sp + 8, c.argv) && WordIs(m, sp + 8 * (1 + a), 0) &&
    WordsAt(m, sp + 8 * (2 + a), c.envp) && WordIs(m, sp + 8 * (2 + a + e), 0) && WordsAt(m, sp + 8 * (3 + a + e), aux)
  }

  /** Part of a row of words, and one word of it. */
  lemma WordsPart(m: Flat, a: nat, v: seq<nat>, w: seq<nat>)
    requires WordsAt(m, a, v + w)
    ensures WordsAt(m, a, v) && WordsAt(m, a + 8 * |v|, w)
  {
    forall i | 0 <= i < |v| ensures WordIs(m, a + 8 * i, v[i]) {
      assert (v + w)[i] == v[i];
    }
    forall i | 0 <= i < |w| ensures WordIs(m, a + 8 * |v| + 8 * i, w[i]) {
      assert (v + w)[|v| + i] == w[i];
      assert WordIs(m, a + 8 * (|v| + i), w[i]);
    }
  }

  lemma WordsOne(m: Flat, a: nat, w: nat)
    requires WordsAt(m, a, [w])
    ensures WordIs(m, a, w)
  {
    assert WordIs(m, a + 8 * 0, [w][0]);
  }

  lemma FrameLaid(m: Flat, sp: nat, c: Copies, aux: seq<nat>)
    requires WordsAt(m, sp, [|c.argv|] + (c.argv + ([0] + (c.envp + ([0] + aux)))))
    ensures Laid(m, sp, c, aux)
  {
    hide WordsAt, WordIs;
    var a, e := |c.argv|, |c.envp|;
    WordsPart(m, sp, [a], c.argv + ([0] + (c.envp + ([0] + aux))));
    WordsPart(m, sp + 8, c.argv, [0] + (c.envp + ([0] + aux)));
    WordsPart(m, sp + 8 * (1 + a), [0], c.envp + ([0] + aux));
    WordsPart(m, sp + 8 * (2 + a), c.envp, [0] + aux);
    WordsPart(m, sp + 8 * (2 + a + e), [0], aux);
    WordsOne(m, sp, a);
    WordsOne(m, sp + 8 * (1 + a), 0);
    WordsOne(m, sp + 8 * (2 + a + e), 0);
  }

  /** A pointer to a string lies at `at`. */
  ghost predicate Leads(m: Flat, at: nat, s: CString)
  {
    exists p: nat :: WordIs(m, at, p) && StringAt(m, p, s)
  }

  /** Looking for a type in the auxiliary vector, pair by pair, ends at pair `k` with the value `v`. */
  ghost predicate Finds(m: Flat, aux: nat, k: nat, t: nat, v: nat)
  {
    WordIs(m, aux + 16 * k, t) && WordIs(m, aux + 16 * k + 8, v) &&
    forall j: nat :: j < k ==> !WordIs(m, aux + 16 * j, t) && !WordIs(m, aux + 16 * j, 0)
  }

  ghost predicate Found(m: Flat, aux: nat, t: nat, v: nat)
  {
    exists k: nat :: Finds(m, aux, k, t, v)
  }

  /** What a program finds in the auxiliary vector: numbers, and pointers to the platform name, the seed and its file name. */
  ghost predicate Announced(m: Flat, aux: nat, img: Image, cred: Cred, secure: bool, file: Option<CString>)
  {
    AboutImage(m, aux, img) && AboutUser(m, aux, cred, secure) && AboutMachine(m, aux) && Pointers(m, aux, file)
  }

  ghost predicate AboutImage(m: Flat, aux: nat, img: Image)
  {
    Found(m, aux, 3, img.phdr) && Found(m, aux, 4, img.phent) && Found(m, aux, 5, img.phnum) && Found(m, aux, 7, img.loadBias) &&
    Found(m, aux, 9, img.entry)
  }

  ghost predicate AboutUser(m: Flat, aux: nat, cred: Cred, secure: bool)
  {
    Found(m, aux, 11, cred.uid) && Found(m, aux, 12, cred.euid) && Found(m, aux, 13, cred.gid) && Found(m, aux, 14, cred.egid) &&
    Found(m, aux, 23, if secure then 1 else 0)
  }

  ghost predicate AboutMachine(m: Flat, aux: nat)
  {
    Found(m, aux, 6, 4096) && Found(m, aux, 8, 0) && Found(m, aux, 16, 2) && Found(m, aux, 17, 100) && Found(m, aux, 26, 2) &&
    Found(m, aux, 33, 0) && Found(m, aux, 0, 0)
  }

  ghost predicate Pointers(m: Flat, aux: nat, file: Option<CString>)
  {
    (exists p: nat :: Found(m, aux, 15, p) && StringAt(m, p, PLATFORM)) &&
    (exists p: nat :: Found(m, aux, 25, p) && Mapped(m, p, 16) && Get(m, p, 16) == RANDOM_SEED) &&
    if file.None? then Found(m, aux, 31, 0) else exists p: nat :: Found(m, aux, 31, p) && StringAt(m, p, file.value)
  }

  /** A program that starts at `sp` reads its arguments, its environment and what it is told about itself. */
  ghost predicate Readable(m: Flat, sp: nat, argv: seq<CString>, envp: seq<CString>, file: Option<CString>, img: Image, cred: Cred, secure: bool)
  {
    WordIs(m, sp, |argv|) && (forall i :: 0 <= i < |argv| ==> Leads(m, sp + 8 * (1 + i), argv[i])) &&
    WordIs(m, sp + 8 * (1 + |argv|), 0) &&
    (forall j :: 0 <= j < |envp| ==> Leads(m, sp + 8 * (2 + |argv| + j), envp[j])) &&
    WordIs(m, sp + 8 * (2 + |argv| + |envp|), 0) && Announced(m, sp + 8 * (3 + |argv| + |envp|), img, cred, secure, file)
  }

  lemma TableLeads(m: Flat, at: nat, lo: nat, ptrs: seq<nat>, strs: seq<CString>, i: nat)
    requires WordsAt(m, at, ptrs) && Strings(m, lo, TOP, ptrs, strs) && i < |strs|
    ensures Leads(m, at + 8 * i, strs[i])
  {
    assert WordIs(m, at + 8 * i, ptrs[i]) && Located(m, lo, TOP, ptrs[i], strs[i]);
  }

  /** The first `n` pairs have types below `b`, and none ends the vector. */
  ghost predicate Below(m: Flat, aux: nat, n: nat, b: nat)
  {
    forall j: nat :: j < n ==> TypeBelow(m, aux + 16 * j, b)
  }

  ghost predicate TypeBelow(m: Flat, a: nat, b: nat)
  {
    exists t: nat :: 0 < t < b && WordIs(m, a, t)
  }

  /** A pair whose type is above those before it is found, and so is the one that ends the vector. */
  lemma NextFound(m: Flat, aux: nat, n: nat, b: nat, t: nat, v: nat)
    requires Below(m, aux, n, b) && (t == 0 || b <= t) && WordIs(m, aux + 16 * n, t) && WordIs(m, aux + 16 * n + 8, v)
    ensures Found(m, aux, t, v) && (t > 0 ==> Below(m, aux, n + 1, t + 1))
  {
    forall j: nat | j < n
      ensures !WordIs(m, aux + 16 * j, t) && !WordIs(m, aux + 16 * j, 0) && (t > 0 ==> TypeBelow(m, aux + 16 * j, t + 1))
    {
      assert TypeBelow(m, aux + 16 * j, b);
    }
    assert Finds(m, aux, n, t, v);
    if t > 0 {
      assert TypeBelow(m, aux + 16 * n, t + 1);
    }
  }

  /** Four pairs in a row. */
  lemma FourFound(m: Flat, aux: nat, n: nat, b: nat, t0: nat, v0: nat, t1: nat, v1: nat, t2: nat, v2: nat, t3: nat, v3: nat)
    requires Below(m, aux, n, b) && WordsAt(m, aux + 16 * n, Four(t0, v0, t1, v1, t2, v2, t3, v3))
    requires 0 < b <= t0 < t1 < t2 && (t2 < t3 || t3 == 0)
    ensures Found(m, aux, t0, v0) && Found(m, aux, t1, v1) && Found(m, aux, t2, v2) && Found(m, aux, t3, v3)
    ensures t3 > 0 ==> Below(m, aux, n + 4, t3 + 1)
  {
    hide WordsAt, WordIs, Below, Found, Four;
    FourWords(m, aux + 16 * n, t0, v0, t1, v1, t2, v2, t3, v3);
    NextFound(m, aux, n, b, t0, v0);
    NextFound(m, aux, n + 1, t0 + 1, t1, v1);
    NextFound(m, aux, n + 2, t1 + 1, t2, v2);
    NextFound(m, aux, n + 3, t2 + 1, t3, v3);
  }

  lemma FourWords(m: Flat, a: nat, t0: nat, v0: nat, t1: nat, v1: nat, t2: nat, v2: nat, t3: nat, v3: nat)
    requires WordsAt(m, a, Four(t0, v0, t1, v1, t2, v2, t3, v3))
    ensures WordIs(m, a, t0) && WordIs(m, a + 8, v0) && WordIs(m, a + 16, t1) && WordIs(m, a + 24, v1)
    ensures WordIs(m, a + 32, t2) && WordIs(m, a + 40, v2) && WordIs(m, a + 48, t3) && WordIs(m, a + 56, v3)
  {
    hide WordIs;
    var ws := Four(t0, v0, t1, v1, t2, v2, t3, v3);
    assert forall i :: 0 <= i < |ws| ==> WordIs(m, a + 8 * i, ws[i]);
    assert ws[0] == t0 && ws[1] == v0 && ws[2] == t1 && ws[3] == v1 && ws[4] == t2 && ws[5] == v2 && ws[6] == t3 && ws[7] == v3;
  }

  /** Every entry of the vector is found. */
  lemma AuxvPairs(m: Flat, aux: nat, img: Image, cred: Cred, secure: bool, c: Copies)
    requires WordsAt(m, aux, Auxv(img, cred, secure, c))
    ensures AboutImage(m, aux, img) && AboutUser(m, aux, cred, secure) && AboutMachine(m, aux)
    ensures Found(m, aux, 15, c.platform) && Found(m, aux, 25, c.random) && Found(m, aux, 31, c.execfn)
  {
    hide WordsAt, Found, Four;
    var p0 := Four(3, img.phdr, 4, img.phent, 5, img.phnum, 6, PAGE_SIZE);
    var p1 := Four(7, img.loadBias, 8, 0, 9, img.entry, 11, cred.uid);
    var p2 := Four(12, cred.euid, 13, cred.gid, 14, cred.egid, 15, c.platform);
    var p3 := Four(16, 2, 17, 100, 23, if secure then 1 else 0, 25, c.random);
    var p4 := Four(26, 2, 31, c.execfn, 33, 0, 0, 0);
    WordsPart(m, aux, p0, p1 + (p2 + (p3 + p4)));
    WordsPart(m, aux + 64, p1, p2 + (p3 + p4));
    WordsPart(m, aux + 128, p2, p3 + p4);
    WordsPart(m, aux + 192, p3, p4);
    FourFound(m, aux, 0, 1, 3, img.phdr, 4, img.phent, 5, img.phnum, 6, PAGE_SIZE);
    FourFound(m, aux, 4, 7, 7, img.loadBias, 8, 0, 9, img.entry, 11, cred.uid);
    FourFound(m, aux, 8, 12, 12, cred.euid, 13, cred.gid, 14, cred.egid, 15, c.platform);
    FourFound(m, aux, 12, 16, 16, 2, 17, 100, 23, if secure then 1 else 0, 25, c.random);
    FourFound(m, aux, 16, 26, 26, 2, 31, c.execfn, 33, 0, 0, 0);
  }

  lemma AuxvAnnounced(m: Flat, aux: nat, lo: nat, img: Image, cred: Cred, secure: bool, c: Copies,
                      argv: seq<CString>, envp: seq<CString>, file: Option<CString>)
    requires WordsAt(m, aux, Auxv(img, cred, secure, c)) && Copied(m, lo, c, argv, envp, file)
    ensures Announced(m, aux, img, cred, secure, file)
  {
    hide WordsAt, Found, StringAt, AboutImage, AboutUser, AboutMachine, Strings, Auxv;
    AuxvPairs(m, aux, img, cred, secure, c);
  }

  lemma FrameReadable(m: Flat, sp: nat, lo: nat, c: Copies, argv: seq<CString>, envp: seq<CString>, file: Option<CString>,
                      img: Image, cred: Cred, secure: bool)
    requires Laid(m, sp, c, Auxv(img, cred, secure, c)) && Copied(m, lo, c, argv, envp, file)
    ensures Readable(m, sp, argv, envp, file, img, cred, secure)
  {
    hide WordsAt, WordIs, Leads, Announced, Located, Auxv, Seeded;
    assert |c.argv| == |argv| && |c.envp| == |envp|;
    forall i | 0 <= i < |argv| ensures Leads(m, sp + 8 * (1 + i), argv[i]) {
      TableLeads(m, sp + 8, lo, c.argv, argv, i);
    }
    forall j | 0 <= j < |envp| ensures Leads(m, sp + 8 * (2 + |argv| + j), envp[j]) {
      TableLeads(m, sp + 8 * (2 + |argv|), lo, c.envp, envp, j);
    }
    AuxvAnnounced(m, sp + 8 * (3 + |argv| + |envp|), lo, img, cred, secure, c, argv, envp, file);
  }

  predicate Wide(img: Image, cred: Cred)
  {
    img.entry < U64 && img.loadBias < U64 && img.phdr < U64 && img.phent < U64 && img.phnum < U64 &&
    cred.uid < U64 && cred.euid < U64 && cred.gid < U64 && cred.egid < U64
  }

  ghost predicate Narrow(ws: seq<nat>) { forall i :: 0 <= i < |ws| ==> ws[i] < U64 }

  lemma PointersNarrow(m: Flat, lo: nat, ptrs: seq<nat>, strs: seq<CString>)
    requires Strings(m, lo, TOP, ptrs, strs)
    ensures Narrow(ptrs) && |ptrs| == |strs|
  {
    assert forall i :: 0 <= i < |strs| ==> Located(m, lo, TOP, ptrs[i], strs[i]);
  }

  lemma AuxNarrow(m: Flat, lo: nat, c: Copies, argv: seq<CString>, envp: seq<CString>, file: Option<CString>, img: Image, cred: Cred, secure: bool)
    requires Copied(m, lo, c, argv, envp, file) && Wide(img, cred)
    ensures Narrow(Auxv(img, cred, secure, c)) && Narrow(c.argv) && Narrow(c.envp) && |c.argv| == |argv| && |c.envp| == |envp|
  {
    PointersNarrow(m, lo, c.argv, argv);
    PointersNarrow(m, lo, c.envp, envp);
  }

  /** The pointer tables below `sp`, written from the top down. */
  method PushFrame(mem: Memory, sp: nat, c: Copies, aux: seq<nat>) returns (next: nat)
    requires mem.Valid() && StackMapped(mem.Bytes()) && |c.argv| < MAX_ARGC && |c.envp| < MAX_ARGC && |aux| == 40
    requires BOTTOM + 8 * (43 + |c.argv| + |c.envp|) <= sp <= TOP && Narrow(aux) && Narrow(c.argv) && Narrow(c.envp)
    modifies mem
    ensures mem.Valid() && StackMapped(mem.Bytes()) && next == sp - 8 * (43 + |c.argv| + |c.envp|)
    ensures Only(old(mem.Bytes()), mem.Bytes(), next, sp) && Laid(mem.Bytes(), next, c, aux)
  {
    hide StackMapped, Only, WordsAt, Memory.Bytes, Laid;
    ghost var m := mem.Bytes();
    NoWords(m, sp);
    assert aux + [] == aux;
    next := PushWords(mem, sp, aux, []);
    ghost var m1 := mem.Bytes();
    next := PushWords(mem, next, [0], aux + []);
    ghost var m2 := mem.Bytes();
    next := PushWords(mem, next, c.envp, [0] + (aux + []));
    ghost var m3 := mem.Bytes();
    next := PushWords(mem, next, [0], c.envp + ([0] + (aux + [])));
    ghost var m4 := mem.Bytes();
    next := PushWords(mem, next, c.argv, [0] + (c.envp + ([0] + (aux + []))));
    ghost var m5 := mem.Bytes();
    next := PushWords(mem, next, [|c.argv|], c.argv + ([0] + (c.envp + ([0] + (aux + [])))));
    var e, a := |c.envp|, |c.argv|;
    OnlyThen(m4, m5, mem.Bytes(), next, next + 8, next + 8 * (1 + a));
    OnlyThen(m3, m4, mem.Bytes(), next, next + 8 * (1 + a), next + 8 * (2 + a));
    OnlyThen(m2, m3, mem.Bytes(), next, next + 8 * (2 + a), next + 8 * (2 + a + e));
    OnlyThen(m1, m2, mem.Bytes(), next, next + 8 * (2 + a + e), next + 8 * (3 + a + e));
    OnlyThen(m, m1, mem.Bytes(), next, next + 8 * (3 + a + e), sp);
    FrameLaid(mem.Bytes(), next, c, aux);
  }

  lemma NoWords(m: Flat, sp: nat)
    ensures WordsAt(m, sp, [])
  {
  }

  lemma TooMany(argv: seq<CString>, envp: seq<CString>)
    requires |argv| >= MAX_ARGC || |envp| >= MAX_ARGC
    ensures !Within(argv, envp)
  {
  }

  predicate Resolves(mem: Memory, a: nat)
    reads mem
  {
    a / PAGE_SIZE in mem.pages
  }

  /** The program headers announced to the program are mapped. */
  predicate HeadersMapped(mem: Memory, img: Image)
    reads mem
  {
    img.phdr == 0 || img.phnum == 0 || img.phent == 0 ||
    (var last := (img.phdr + (img.phnum - 1) * img.phent) % U64; last >= img.phdr && Resolves(mem, img.phdr) && Resolves(mem, last))
  }

  ghost predicate HeadersIn(m: Flat, img: Image)
  {
    img.phdr == 0 || img.phnum == 0 || img.phent == 0 ||
    (var last := (img.phdr + (img.phnum - 1) * img.phent) % U64; last >= img.phdr && img.phdr in m && last in m)
  }

  lemma HeadersOf(mem: Memory, img: Image)
    requires mem.Valid()
    ensures HeadersMapped(mem, img) <==> HeadersIn(mem.Bytes(), img)
  {
  }

  /** Writing below the strings does not change what is mapped. */
  lemma HeadersKeep(m: Flat, m': Flat, sp: nat, img: Image)
    requires Only(m, m', sp, TOP)
    ensures HeadersIn(m', img) <==> HeadersIn(m, img)
  {
  }

  /**
   * `setup_user_stack` once the stack pages are mapped: reading from the returned stack pointer
   * gives the count, the argument and environment strings and the auxiliary vector back.
   */
  method Setup(mem: Memory, argv: seq<CString>, envp: seq<CString>, file: Option<CString>, img: Image, cred: Cred, secure: bool)
    returns (r: Result, c: Copies)
    requires mem.Valid() && StackMapped(mem.Bytes()) && Wide(img, cred)
    requires file.Some? ==> |file.value| <= MAX_ARG_STRLEN
    modifies mem
    ensures mem.Valid() && StackMapped(mem.Bytes())
    ensures r.TooBig? <==> !Within(argv, envp)
    ensures r.NoExec? <==> Within(argv, envp) && !HeadersIn(old(mem.Bytes()), img)
    ensures r.Done? ==> BOTTOM <= r.sp && r.sp % 16 == 0 && Only(old(mem.Bytes()), mem.Bytes(), r.sp, TOP)
    ensures r.Done? ==> Readable(mem.Bytes(), r.sp, argv, envp, file, img, cred, secure)
    ensures r.Done? ==> Copied(mem.Bytes(), r.sp + 8 * (43 + |argv| + |envp|), c, argv, envp, file)
  {
    hide StackMapped, Only, WordsAt, Memory.Bytes, Copied, Within, Narrow, Wide, HeadersMapped, HeadersIn, Auxv, Laid, Readable;
    c := Copies([], [], 0, 0, 0);
    if |argv| >= MAX_ARGC || |envp| >= MAX_ARGC {
      TooMany(argv, envp);
      return TooBig, c;
    }
    ghost var m := mem.Bytes();
    HeadersOf(mem, img);
    var ok, sp;
    ok, sp, c := CopyAll(mem, argv, envp, file);
    if !ok {
      return TooBig, c;
    }
    ghost var m1 := mem.Bytes();
    var aux := Auxv(img, cred, secure, c);
    AuxNarrow(m1, sp, c, argv, envp, file, img, cred, secure);
    HeadersKeep(m, m1, sp, img);
    HeadersOf(mem, img);
    if !HeadersMapped(mem, img) {
      return NoExec, c;
    }
    var low := sp - sp % 16;
    OnlySelf(m1, low);
    if (43 + |argv| + |envp|) % 2 != 0 {
      low := PushWord(mem, low, 0);
    }
    ghost var m2 := mem.Bytes();
    var next := PushFrame(mem, low, c, aux);
    Widened(m, m1, m2, mem.Bytes(), sp, sp - sp % 16, low, next, c, argv, envp, file);
    FrameReadable(mem.Bytes(), next, low, c, argv, envp, file, img, cred, secure);
    r := Done(next);
  }

  lemma Widened(m: Flat, m1: Flat, m2: Flat, m3: Flat, sp: nat, top: nat, low: nat, next: nat, c: Copies,
                argv: seq<CString>, envp: seq<CString>, file: Option<CString>)
    requires Only(m, m1, sp, TOP) && Only(m1, m2, low, top) && Only(m2, m3, next, low) && next <= low <= top <= sp <= TOP
    requires Copied(m1, sp, c, argv, envp, file)
    ensures Only(m, m3, next, TOP) && Copied(m3, low, c, argv, envp, file)
  {
    OnlyThen(m1, m2, m3, next, low, top);
    assert Only(m1, m3, next, sp);
    OnlyThen(m, m1, m3, next, sp, TOP);
    CopiedKeep(m1, m3, next, sp, c, argv, envp, file);
    CopiedWiden(m3, sp, low, c, argv, envp, file);
  }

  lemma CopiedWiden(m: Flat, lo: nat, lo': nat, c: Copies, argv: seq<CString>, envp: seq<CString>, file: Option<CString>)
    requires Copied(m, lo, c, argv, envp, file) && lo' <= lo
    ensures Copied(m, lo', c, argv, envp, file)
  {
    StringsWiden(m, lo, TOP, lo', TOP, c.argv, argv);
    StringsWiden(m, lo, TOP, lo', TOP, c.envp, envp);
  }
}
