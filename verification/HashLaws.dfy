/** What the hash function tells apart: single bytes, beginnings and endings, and a key and its extensions. */
module HashLaws {
  import opened Basics
  import opened HashTables

  // ---------------------------------------------------------------------------------------------
  // One byte
  // ---------------------------------------------------------------------------------------------

  function Scaled(h: bv32): bv32 {
    h * 16777619
  }

  /** The product with the inverse of 16777619 modulo 2^32. */
  function Unscaled(h: bv32): bv32 {
    h * 0x359C_449B
  }

  lemma ScaledUndone(h: bv32)
    ensures Unscaled(h * 16777619) == h
  {
  }

  lemma UnscaledUndone(h: bv32)
    ensures Scaled(h * 0x359C_449B) == h
  {
  }

  lemma UnscaledIs(h: bv32)
    ensures Unscaled(h) == h * 0x359C_449B
  {
  }

  lemma UnscaledInjective(g: bv32, h: bv32)
    ensures Unscaled(g) == Unscaled(h) <==> g == h
  {
    hide *;
    UnscaledIs(g);
    UnscaledIs(h);
    UnscaledUndone(g);
    UnscaledUndone(h);
  }

  /** A character is its byte, or 256 below it modulo 2^32. */
  lemma SignedIs(b: bv8)
    ensures Signed(b) == if b < 0x80 then b as bv32 else (b as bv32) - 0x100
  {
  }

  lemma MixIs(h: bv32, b: bv8)
    ensures Mix(h, b) == (h ^ Signed(b)) * 16777619
  {
    hide Signed;
  }

  /** Mixing can be undone: the hash and the byte determine the hash in front. */
  lemma MixUndone(h: bv32, b: bv8)
    ensures Unscaled(Mix(h, b)) == h ^ Signed(b)
  {
    hide *;
    MixIs(h, b);
    ScaledUndone(h ^ Signed(b));
  }

  lemma SignedApart(h: bv32, b: bv8, c: bv8)
    requires b != c
    ensures h ^ Signed(b) != h ^ Signed(c)
  {
  }

  lemma FrontsApart(g: bv32, h: bv32, e: bv32)
    ensures g ^ e == h ^ e <==> g == h
  {
  }

  function Xor(a: bv32, b: bv32): bv32 {
    a ^ b
  }

  /** The byte, as a character, that would leave a hash as it is, if there is one. */
  function Fixing(h: bv32): bv32 {
    Xor(h, Unscaled(h))
  }

  lemma XorIs(a: bv32, b: bv32)
    ensures Xor(a, b) == a ^ b
  {
  }

  lemma XorUndone(a: bv32, b: bv32)
    ensures Xor(a, a ^ b) == b
  {
  }

  lemma XorTwice(a: bv32, b: bv32)
    ensures Xor(a, Xor(a, b)) == b
  {
    hide *;
    XorIs(a, b);
    XorUndone(a, b);
  }

  lemma Solved(h: bv32, u: bv32, s: bv32)
    ensures Xor(h, s) == u <==> Xor(h, u) == s
  {
    hide *;
    XorTwice(h, s);
    XorTwice(h, u);
  }

  lemma FixingIs(h: bv32, s: bv32)
    ensures Fixing(h) == s <==> Xor(h, s) == Unscaled(h)
  {
    hide Unscaled, Xor;
    Solved(h, Unscaled(h), s);
  }

  lemma MixFixes(h: bv32, b: bv8)
    ensures Mix(h, b) == h <==> Fixing(h) == Signed(b)
  {
    hide *;
    MixUndone(h, b);
    XorIs(h, Signed(b));
    UnscaledInjective(Mix(h, b), h);
    FixingIs(h, Signed(b));
  }

  // ---------------------------------------------------------------------------------------------
  // Keys
  // ---------------------------------------------------------------------------------------------

  /** Keys that differ in their last byte only have different hashes. */
  lemma LastByteTells(k: Key, b: bv8, c: bv8)
    requires b != c
    ensures Hash(k + [b]) != Hash(k + [c])
  {
    hide *;
    OneMore(k, b, k + [b]);
    OneMore(k, c, k + [c]);
    MixUndone(Hash(k), b);
    MixUndone(Hash(k), c);
    SignedApart(Hash(k), b, c);
  }

  /** Keys of the same last byte collide if and only if their beginnings do. */
  lemma BeginningsTell(k: Key, l: Key, b: bv8)
    ensures Hash(k + [b]) == Hash(l + [b]) <==> Hash(k) == Hash(l)
  {
    hide *;
    OneMore(k, b, k + [b]);
    OneMore(l, b, l + [b]);
    MixUndone(Hash(k), b);
    MixUndone(Hash(l), b);
    FrontsApart(Hash(k), Hash(l), Signed(b));
  }

  /** Keys of one hash collide whatever is added to both, and keys of two hashes never do. */
  lemma {:induction false} EndingsKeep(k: Key, l: Key, end: Key)
    ensures Hash(k + end) == Hash(l + end) <==> Hash(k) == Hash(l)
    decreases |end|
  {
    hide *;
    if end == [] {
      assert k + end == k && l + end == l;
    } else {
      var n := |end| - 1;
      EndingsKeep(k, l, end[..n]);
      BeginningsTell(k + end[..n], l + end[..n], end[n]);
      assert k + end == k + end[..n] + [end[n]] && l + end == l + end[..n] + [end[n]];
    }
  }

  /**
   A key collides with itself and one more byte exactly when the hash, combined with its product with the
   inverse, is that byte.
   */
  lemma ExtensionCollides(k: Key, b: bv8)
    ensures Hash(k + [b]) == Hash(k) <==> Fixing(Hash(k)) == Signed(b)
  {
    hide *;
    OneMore(k, b, k + [b]);
    MixFixes(Hash(k), b);
  }

  const LETTER_A: Key := [0x61]
  const LETTERS_AB: Key := [0x61, 0x62]

  /** Some hashes, with bytes that are negative characters among them. */
  lemma HashValues()
    ensures Hash([]) == 0x811C_9DC5 && Hash(LETTER_A) == 0xE40C_292C && Hash(LETTERS_AB) == 0x4D25_05CA
    ensures Hash([0x80]) == 0x04F3_B29F && Hash([0xFF]) == 0xF9F3_A14E
  {
    hide Hash;
    NoByte();
    OneMore([], 0x61, [0x61]);
    OneMore([0x61], 0x62, [0x61, 0x62]);
    OneMore([], 0x80, [0x80]);
    OneMore([], 0xFF, [0xFF]);
  }

  // ---------------------------------------------------------------------------------------------
  // What this means for look-ups
  // ---------------------------------------------------------------------------------------------

  lemma TwoAnswers<V>(t: Table<V>, a: Op<V>, b: Op<V>)
    ensures Answers(t, [a, b]) == [Answer(t, a), Answer(Step(t, a), b)]
  {
    hide Step, Answer;
    assert [a, b][1..] == [b] && [b][1..] == [];
    assert Answers(Step(t, a), [b]) == [Answer(Step(t, a), b)];
  }

  lemma SamePlace(chains: seq<seq<Key>>, a: Key, b: Key)
    requires |chains| > 0
    ensures Matches(a, b) ==> Place(chains, a) == Place(chains, b)
  {
  }

  /** A single stored key answers for another one exactly when it begins with that one and has its hash. */
  lemma SingleAnswer<V>(n: nat, stored: Key, asked: Key, v: V)
    ensures Answers(NewTable<V>(n), [Put(stored, v), Ask(asked)]) ==
            [None, if Matches(stored, asked) then Some(v) else None]
  {
    var t := Set(NewTable<V>(n), stored, v);
    FirstPut(n, stored, v);
    TwoAnswers(NewTable<V>(n), Put(stored, v), Ask(asked));
    hide Matches, Index, Hash, Set;
    if Place(t.chains, stored) == Place(t.chains, asked) {
      assert t.chains[Place(t.chains, asked)] == [stored];
    } else {
      SamePlace(t.chains, stored, asked);
      assert t.chains[Place(t.chains, asked)] == [];
    }
  }

  /** So a stored key answers for its beginning without the last byte exactly when that byte is the one of the hash. */
  lemma PrefixMistaken<V>(n: nat, k: Key, b: bv8, v: V)
    ensures Answers(NewTable<V>(n), [Put(k + [b], v), Ask(k)]) ==
            [None, if Fixing(Hash(k)) == Signed(b) then Some(v) else None]
  {
    ExtensionCollides(k, b);
    MatchesIs(k + [b], k);
    assert (k + [b])[..|k|] == k;
    hide Hash, Matches, Fixing, Signed;
    SingleAnswer(n, k + [b], k, v);
  }

  /** An ordinary prefix is not mistaken: with "ab" stored there is nothing under "a". */
  lemma OrdinaryPrefix<V>(n: nat, v: V)
    ensures Answers(NewTable<V>(n), [Put(LETTERS_AB, v), Ask(LETTER_A)]) == [None, None]
  {
    HashValues();
    MatchesIs(LETTERS_AB, LETTER_A);
    hide Hash, Matches;
    SingleAnswer(n, LETTERS_AB, LETTER_A, v);
  }
}
