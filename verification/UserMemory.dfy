/** The memory of a user process, page by page and as one map from addresses to bytes. */
module UserMemory {
  import opened Common
  import Arith

  type Flat = imap<nat, Octet>

  predicate In(x: nat, a: nat, n: nat) { a <= x < a + n }

  ghost predicate Mapped(m: Flat, a: nat, n: nat)
  {
    forall x: nat :: In(x, a, n) ==> x in m
  }

  ghost function Put(m: Flat, a: nat, bs: seq<Octet>): Flat
  {
    imap x: nat | x in m || In(x, a, |bs|) :: if In(x, a, |bs|) then bs[x - a] else m[x]
  }

  ghost function Get(m: Flat, a: nat, n: nat): (bs: seq<Octet>)
    requires Mapped(m, a, n)
    ensures |bs| == n
  {
    seq(n, k requires 0 <= k < n => assert In(a + k, a, n); m[a + k])
  }

  lemma GetPut(m: Flat, a: nat, bs: seq<Octet>)
    ensures Mapped(Put(m, a, bs), a, |bs|) && Get(Put(m, a, bs), a, |bs|) == bs
  {
    forall k | 0 <= k < |bs| ensures Get(Put(m, a, bs), a, |bs|)[k] == bs[k] { assert In(a + k, a, |bs|); }
  }

  /** Bytes elsewhere are not affected. */
  lemma GetPutElsewhere(m: Flat, a: nat, bs: seq<Octet>, b: nat, n: nat)
    requires Mapped(m, b, n) && (b + n <= a || a + |bs| <= b)
    ensures Mapped(Put(m, a, bs), b, n) && Get(Put(m, a, bs), b, n) == Get(m, b, n)
  {
    forall k | 0 <= k < n ensures Get(Put(m, a, bs), b, n)[k] == Get(m, b, n)[k] { assert In(b + k, b, n); }
  }

  lemma PutPut(m: Flat, a: nat, bs: seq<Octet>, cs: seq<Octet>)
    ensures Put(Put(m, a, bs), a + |bs|, cs) == Put(m, a, bs + cs)
  {
  }

  /** The `n` low bytes of `v`, least significant first. */
  function Encode(v: nat, n: nat): (bs: seq<Octet>)
    ensures |bs| == n
  {
    if n == 0 then [] else [v % 256] + Encode(v / 256, n - 1)
  }

  /** The byte at place `k` is the `k`th digit to the base 256, counted from the lowest. */
  lemma {:induction false} EncodeAt(v: nat, n: nat, k: nat)
    requires k < n
    ensures Encode(v, n)[k] == v / Power(k) % 256
  {
    if k > 0 {
      EncodeAt(v / 256, n - 1, k - 1);
      DivTwice(v, Power(k - 1));
    }
  }

  lemma DivTwice(v: nat, p: nat)
    requires p > 0
    ensures v / 256 / p == v / (256 * p)
  {
    var q := v / (256 * p);
    var r := v % (256 * p);
    assert v == q * (256 * p) + r;
    assert v == (q * p) * 256 + r;
    assert v / 256 == q * p + r / 256;
    assert r / 256 < p;
    assert v / 256 == q * p + r / 256;
    Arith.DivUnique(v / 256, q, r / 256, p);
  }

  function Decode(bs: seq<Octet>): nat
  {
    if bs == [] then 0 else bs[0] + 256 * Decode(bs[1..])
  }

  function Power(n: nat): (p: nat)
    ensures p > 0
  {
    if n == 0 then 1 else 256 * Power(n - 1)
  }

  lemma {:induction false} DecodeEncode(v: nat, n: nat)
    requires v < Power(n)
    ensures Decode(Encode(v, n)) == v
  {
    if n > 0 {
      DecodeEncode(v / 256, n - 1);
      assert Encode(v, n)[1..] == Encode(v / 256, n - 1);
    }
  }

  lemma {:induction false} DecodeBound(bs: seq<Octet>)
    ensures Decode(bs) < Power(|bs|)
  {
    if bs != [] { DecodeBound(bs[1..]); }
  }

  lemma EightBytes()
    ensures Power(8) == U64
  {
    assert Power(4) == 256 * (256 * (256 * (256 * Power(0))));
    assert Power(8) == 256 * (256 * (256 * (256 * Power(4))));
  }

  /** The 64-bit word at `a`. */
  ghost function Word(m: Flat, a: nat): nat
    requires Mapped(m, a, 8)
  {
    Decode(Get(m, a, 8))
  }

  ghost function PutWord(m: Flat, a: nat, v: nat): Flat { Put(m, a, Encode(v, 8)) }

  lemma WordPut(m: Flat, a: nat, v: nat)
    requires v < U64
    ensures Mapped(PutWord(m, a, v), a, 8) && Word(PutWord(m, a, v), a) == v
  {
    GetPut(m, a, Encode(v, 8));
    EightBytes();
    DecodeEncode(v, 8);
  }

  lemma WordBound(m: Flat, a: nat)
    requires Mapped(m, a, 8)
    ensures Word(m, a) < U64
  {
    EightBytes();
    DecodeBound(Get(m, a, 8));
  }

  lemma PutNothing(m: Flat, a: nat)
    ensures Put(m, a, []) == m && Mapped(m, a, 0)
  {}

  lemma SamePage(a: nat, x: nat)
    requires a <= x < a + (PAGE_SIZE - a % PAGE_SIZE)
    ensures x / PAGE_SIZE == a / PAGE_SIZE
  {}

  class Memory {
    var pages: map<nat, seq<Octet>>

    constructor ()
      ensures Valid() && pages == map[]
    {
      pages := map[];
    }

    ghost predicate Valid()
      reads this
    {
      forall p :: p in pages ==> |pages[p]| == PAGE_SIZE
    }

    ghost function Bytes(): Flat
      requires Valid()
      reads this
    {
      imap x: nat | x / PAGE_SIZE in pages :: pages[x / PAGE_SIZE][x % PAGE_SIZE]
    }

    /** What one chunk of a write does: `src` lies within one page from `a`. */
    method WriteChunk(a: nat, src: seq<Octet>)
      requires Valid() && a / PAGE_SIZE in pages && a % PAGE_SIZE + |src| <= PAGE_SIZE
      modifies this
      ensures Valid() && pages.Keys == old(pages.Keys) && Bytes() == Put(old(Bytes()), a, src)
    {
      var p, off := a / PAGE_SIZE, a % PAGE_SIZE;
      var page := pages[p];
      pages := pages[p := page[..off] + src + page[off + |src|..]];
      forall x: nat ensures In(x, a, |src|) ==> x / PAGE_SIZE == p && x % PAGE_SIZE == off + (x - a) {
      }
    }

    /** `write_user_memory`: page by page; what was written before a missing page stays. */
    method Write(a: nat, src: seq<Octet>) returns (ok: bool, ghost written: nat)
      requires Valid()
      modifies this
      ensures Valid() && pages.Keys == old(pages.Keys)
      ensures ok <==> Mapped(old(Bytes()), a, |src|)
      ensures written <= |src| && Bytes() == Put(old(Bytes()), a, src[..written]) && (ok ==> written == |src|)
    {
      hide Put, Mapped, Bytes;
      ghost var m := Bytes();
      PutNothing(m, a);
      written := 0;
      var done := 0;
      while done < |src|
        invariant 0 <= done <= |src| && Valid() && pages.Keys == old(pages.Keys)
        invariant Bytes() == Put(m, a, src[..done]) && Mapped(m, a, done)
      {
        var at := a + done;
        if at / PAGE_SIZE !in pages {
          Reaches(m, a, done, |src|, src[..done], 0);
          return false, done;
        }
        var room := PAGE_SIZE - at % PAGE_SIZE;
        var chunk := if |src| - done < room then |src| - done else room;
        Reaches(m, a, done, |src|, src[..done], chunk);
        PutPut(m, a, src[..done], src[done..done + chunk]);
        assert src[..done] + src[done..done + chunk] == src[..done + chunk];
        WriteChunk(at, src[done..done + chunk]);
        done := done + chunk;
      }
      assert src[..done] == src;
      return true, done;
    }

    /** Beyond what was written the memory is mapped to the end of the page, or not at all. */
    lemma Reaches(m: Flat, a: nat, done: nat, n: nat, bs: seq<Octet>, k: nat)
      requires Valid() && Bytes() == Put(m, a, bs) && |bs| == done < n && Mapped(m, a, done) && k <= PAGE_SIZE - (a + done) % PAGE_SIZE
      ensures if (a + done) / PAGE_SIZE in pages then Mapped(m, a, done + k) else !Mapped(m, a, n)
    {
      var at := a + done;
      assert In(at, a, n) && !In(at, a, done);
      assert at in Bytes() <==> at / PAGE_SIZE in pages;
      assert at in Put(m, a, bs) <==> at in m;
      if at / PAGE_SIZE in pages {
        forall x: nat | In(x, a, done + k)
          ensures x in m
        {
          if In(x, a, done) {
            assert x in m;
          } else {
            SamePage(at, x);
            assert x in Bytes();
            assert x in Put(m, a, bs);
          }
        }
      }
    }

    method ReadChunk(a: nat, n: nat) returns (bs: seq<Octet>)
      requires Valid() && a / PAGE_SIZE in pages && a % PAGE_SIZE + n <= PAGE_SIZE
      ensures Mapped(Bytes(), a, n) && bs == Get(Bytes(), a, n)
    {
      var p, off := a / PAGE_SIZE, a % PAGE_SIZE;
      bs := pages[p][off..off + n];
      forall x: nat ensures In(x, a, n) ==> x / PAGE_SIZE == p && x % PAGE_SIZE == off + (x - a) {
      }
    }

    /** `read_user_memory`. */
    method Read(a: nat, n: nat) returns (ok: bool, data: seq<Octet>)
      requires Valid()
      ensures ok <==> Mapped(Bytes(), a, n)
      ensures ok ==> data == Get(Bytes(), a, n)
    {
      data := [];
      while |data| < n
        invariant |data| <= n && Mapped(Bytes(), a, |data|) && data == Get(Bytes(), a, |data|)
      {
        var at := a + |data|;
        if at / PAGE_SIZE !in pages {
          assert In(at, a, n) && at !in Bytes();
          return false, [];
        }
        var room := PAGE_SIZE - at % PAGE_SIZE;
        var chunk := if n - |data| < room then n - |data| else room;
        var more := ReadChunk(at, chunk);
        GetGet(Bytes(), a, |data|, chunk);
        data := data + more;
      }
      ok := true;
    }

    /** `read_user_u64`. */
    method ReadWord(a: nat) returns (r: Option<nat>)
      requires Valid()
      ensures r.Some? <==> Mapped(Bytes(), a, 8)
      ensures r.Some? ==> r.value == Word(Bytes(), a) < U64
    {
      var ok, data := Read(a, 8);
      if !ok {
        return None;
      }
      WordBound(Bytes(), a);
      r := Some(Decode(data));
    }

    /** `write_user_u64`. */
    method WriteWord(a: nat, v: nat) returns (ok: bool)
      requires Valid()
      modifies this
      ensures Valid() && pages.Keys == old(pages.Keys)
      ensures ok <==> Mapped(old(Bytes()), a, 8)
      ensures ok ==> Bytes() == PutWord(old(Bytes()), a, v)
    {
      ghost var n;
      ok, n := Write(a, Encode(v, 8));
      assert Encode(v, 8)[..8] == Encode(v, 8);
    }
  }

  lemma GetGet(m: Flat, a: nat, n: nat, k: nat)
    requires Mapped(m, a, n) && Mapped(m, a + n, k)
    ensures Mapped(m, a, n + k) && Get(m, a, n + k) == Get(m, a, n) + Get(m, a + n, k)
  {
    forall x: nat ensures In(x, a, n + k) ==> In(x, a, n) || In(x, a + n, k) {
    }
  }
}
