/** Little-endian, two's-complement storage of integers, as VM_read and VM_write do it. */
module Bytes {

  type Byte = b: int | 0 <= b < 256

  /** Bytes per data mode: byte, short, word, quad (vmSizeTbl). */
  function SizeOf(mode: nat): (n: nat)
    requires mode < 4
    ensures 1 <= n <= 8
  {
    if mode == 0 then 1 else if mode == 1 then 2 else if mode == 2 then 4 else 8
  }

  function Pow256(n: nat): (p: nat)
    ensures p >= 1 && (n > 0 ==> p % 256 == 0)
  {
    if n == 0 then 1 else 256 * Pow256(n - 1)
  }

  /** The low `n` bytes of `v`, least significant first. */
  function Put(v: int, n: nat): (s: seq<Byte>)
    ensures |s| == n
    decreases n
  {
    if n == 0 then [] else [v % 256] + Put(v / 256, n - 1)
  }

  /** The signed value of a non-empty little-endian string. */
  function Get(s: seq<Byte>): int
    requires s != []
  {
    if |s| == 1 then
      if s[0] < 128 then s[0] else s[0] - 256
    else
      s[0] + 256 * Get(s[1..])
  }

  /** The unsigned value of a little-endian string. */
  function GetU(s: seq<Byte>): nat {
    if s == [] then 0 else s[0] + 256 * GetU(s[1..])
  }

  /** `v` is a signed number of `n` bytes. */
  predicate Fits(v: int, n: nat)
    requires n > 0
  {
    -128 * Pow256(n - 1) <= v < 128 * Pow256(n - 1)
  }

  lemma {:induction false} GetFits(s: seq<Byte>)
    requires s != []
    ensures Fits(Get(s), |s|)
    decreases s
  {
    if |s| > 1 {
      GetFits(s[1..]);
    }
  }

  lemma {:induction false} GetPutFits(v: int, n: nat)
    requires n > 0 && Fits(v, n)
    ensures Get(Put(v, n)) == v
    decreases n
  {
    if n > 1 {
      var p := Pow256(n - 2);
      assert Pow256(n - 1) == 256 * p;
      assert -128 * p <= v / 256 < 128 * p;
      GetPutFits(v / 256, n - 1);
      assert Put(v, n)[1..] == Put(v / 256, n - 1);
    } else {
      assert Pow256(0) == 1;
      assert Put(v, 1) == [v % 256];
    }
  }

  /** A stored integer is read back unchanged exactly when it fits. */
  lemma GetPut(v: int, n: nat)
    requires n > 0
    ensures Get(Put(v, n)) == v <==> Fits(v, n)
  {
    if Fits(v, n) {
      GetPutFits(v, n);
    } else {
      GetFits(Put(v, n));
    }
  }

  /** Storing what was read gives the same bytes back. */
  lemma {:induction false} PutGet(s: seq<Byte>)
    requires s != []
    ensures Put(Get(s), |s|) == s
    decreases s
  {
    if |s| == 1 {
      assert Put(Get(s), 1) == [Get(s) % 256];
    } else {
      PutGet(s[1..]);
      assert Get(s) % 256 == s[0] && Get(s) / 256 == Get(s[1..]);
    }
  }

  lemma {:induction false} GetURange(s: seq<Byte>)
    ensures GetU(s) < Pow256(|s|)
    decreases s
  {
    if s != [] {
      GetURange(s[1..]);
    }
  }

  /** The unsigned reading of `n` stored bytes is the integer modulo 256^n; exact below that. */
  lemma {:induction false} GetUPut(v: int, n: nat)
    requires 0 <= v < Pow256(n)
    ensures GetU(Put(v, n)) == v
    decreases n
  {
    if n > 0 {
      GetUPut(v / 256, n - 1);
      assert Put(v, n)[1..] == Put(v / 256, n - 1);
    }
  }

  lemma {:induction false} PutPrefix(v: int, n: nat, m: nat)
    requires n <= m
    ensures Put(v, m)[..n] == Put(v, n)
    decreases n
  {
    if n > 0 {
      PutPrefix(v / 256, n - 1, m - 1);
      assert Put(v, m)[..n] == [v % 256] + Put(v / 256, m - 1)[..n - 1];
    }
  }

  /** Numbers of the same `n` low bytes differ by a multiple of 256^n. */
  lemma {:induction false} SameBytes(v: int, w: int, n: nat) returns (q: int)
    requires Put(v, n) == Put(w, n)
    ensures v - w == Pow256(n) * q
    decreases n
  {
    if n == 0 {
      q := v - w;
    } else {
      assert v % 256 == Put(v, n)[0] == Put(w, n)[0] == w % 256;
      assert Put(v / 256, n - 1) == Put(v, n)[1..] == Put(w, n)[1..] == Put(w / 256, n - 1);
      q := SameBytes(v / 256, w / 256, n - 1);
      assert 256 * (Pow256(n - 1) * q) == Pow256(n) * q;
    }
  }
}
