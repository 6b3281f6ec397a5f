/** The Bloom filter that matches transactions and, while matching, adds the
    outputs it matched. The hash function, the parser of scripts and the
    recognizer of output types are taken as given. */
module Bloom {
  import opened Common
  import Radix

  type Data = seq<byte>
  type Murmur = (nat, Data) -> nat

  const BLOOM_UPDATE_ALL := 1
  const BLOOM_UPDATE_P2PUBKEY_ONLY := 2

  // ----- bits of a byte vector ---------------------------------------------------------

  function BitMask(k: nat): bv8
    requires k < 8
  {
    [0x01, 0x02, 0x04, 0x08, 0x10, 0x20, 0x40, 0x80][k]
  }

  predicate TestBit(b: bv8, k: nat)
    requires k < 8
  {
    b & BitMask(k) != 0
  }

  /** Bit `k` counts from the lowest. */
  lemma BitFromLowest(b: bv8, k: nat)
    requires k < 8
    ensures TestBit(b, k) <==> (b >> k) & 1 == 1
  {
  }

  lemma OrBit(b: bv8, j: nat, k: nat)
    requires j < 8 && k < 8
    ensures TestBit(b | BitMask(j), k) <==> j == k || TestBit(b, k)
    ensures 0xff | BitMask(j) == 0xff
  {
  }

  predicate Bit(data: seq<bv8>, n: nat)
    requires n < |data| * 8
  {
    TestBit(data[n / 8], n % 8)
  }

  function WithBit(data: seq<bv8>, n: nat): (r: seq<bv8>)
    requires n < |data| * 8
    ensures |r| == |data|
  {
    data[n / 8 := data[n / 8] | BitMask(n % 8)]
  }

  lemma WithBitMeaning(data: seq<bv8>, n: nat, k: nat)
    requires n < |data| * 8 && k < |data| * 8
    ensures Bit(WithBit(data, n), k) <==> n == k || Bit(data, k)
  {
    if n / 8 == k / 8 { OrBit(data[n / 8], n % 8, k % 8); }
  }

  // ----- the filter -------------------------------------------------------------------

  datatype Filter = Filter(data: seq<bv8>, hashFuncs: nat, tweak: nat, flags: nat)

  predicate Usable(f: Filter) { |f.data| > 0 }

  /** The seed of each hash function, with 32-bit wrap-around. */
  function Seed(i: nat, tweak: nat): (n: nat)
    ensures n < 0x1_0000_0000
  {
    (i * 0xFBA4C795 + tweak) % 0x1_0000_0000
  }

  /** The seeds start at the tweak and are 0xFBA4C795 apart, so that no two of 2^32
      hash functions share one. */
  lemma SeedsDistinct(i: nat, j: nat, tweak: nat)
    requires i < 0x1_0000_0000 && j < 0x1_0000_0000
    ensures Seed(0, tweak) == tweak % 0x1_0000_0000
    ensures Seed(i + 1, tweak) == (Seed(i, tweak) + 0xFBA4C795) % 0x1_0000_0000
    ensures Seed(i, tweak) == Seed(j, tweak) ==> i == j
  {
    SeedStep(i * 0xFBA4C795 + tweak);
    if Seed(i, tweak) == Seed(j, tweak) {
      var a, b := i * 0xFBA4C795 + tweak, j * 0xFBA4C795 + tweak;
      var q := a / 0x1_0000_0000 - b / 0x1_0000_0000;
      assert (i - j) * 0xFBA4C795 == q * 0x1_0000_0000;
      OddFactor(i - j, q);
    }
  }

  lemma SeedStep(n: nat)
    ensures (n + 0xFBA4C795) % 0x1_0000_0000 == (n % 0x1_0000_0000 + 0xFBA4C795) % 0x1_0000_0000
  {
  }

  lemma OddFactor(d: int, q: int)
    requires -0x1_0000_0000 < d < 0x1_0000_0000 && d * 0xFBA4C795 == q * 0x1_0000_0000
    ensures d == 0
  {
    assert 0xFBA4C795 * 0x75604bbd == 1 + 0x7360f775 * 0x1_0000_0000;
    assert d == (q * 0x75604bbd - d * 0x7360f775) * 0x1_0000_0000;
  }

  /** The position a key is hashed to. */
  function Hash(m: Murmur, f: Filter, i: nat, key: Data): (n: nat)
    requires Usable(f)
    ensures n < |f.data| * 8
  {
    m(Seed(i, f.tweak), key) % (|f.data| * 8)
  }

  /** The one-byte filter that matches everything. */
  predicate Full(f: Filter) { f.data == [0xff] }

  ghost predicate Contains(m: Murmur, f: Filter, key: Data)
    requires Usable(f)
  {
    Full(f) || forall i: nat | i < f.hashFuncs :: Bit(f.data, Hash(m, f, i, key))
  }

  /** The filter after the first `k` hash functions set their bits. */
  function Marked(m: Murmur, f: Filter, key: Data, k: nat): (r: Filter)
    requires Usable(f)
    ensures |r.data| == |f.data| && r == f.(data := r.data)
  {
    if k == 0 then f
    else
      var g := Marked(m, f, key, k - 1);
      g.(data := WithBit(g.data, Hash(m, f, k - 1, key)))
  }

  lemma MarkedNone(m: Murmur, f: Filter, key: Data)
    requires Usable(f)
    ensures Marked(m, f, key, 0) == f
  {
  }

  lemma MarkedStep(m: Murmur, f: Filter, key: Data, k: nat)
    requires Usable(f)
    ensures Marked(m, f, key, k + 1).data == WithBit(Marked(m, f, key, k).data, Hash(m, f, k, key))
  {
  }

  function Inserted(m: Murmur, f: Filter, key: Data): (r: Filter)
    requires Usable(f)
    ensures Usable(r) && |r.data| == |f.data| && r == f.(data := r.data)
  {
    if Full(f) then f else Marked(m, f, key, f.hashFuncs)
  }

  ghost predicate Hit(m: Murmur, f: Filter, key: Data, k: nat, n: nat)
    requires Usable(f)
  {
    exists i: nat :: i < k && Hash(m, f, i, key) == n
  }

  lemma {:induction false} MarkedBits(m: Murmur, f: Filter, key: Data, k: nat, n: nat)
    requires Usable(f) && n < |f.data| * 8
    ensures Bit(Marked(m, f, key, k).data, n) <==> Bit(f.data, n) || Hit(m, f, key, k, n)
  {
    hide Bit, WithBit, Hash, Marked;
    if k == 0 {
      MarkedNone(m, f, key);
    } else {
      MarkedStep(m, f, key, k - 1);
      MarkedBits(m, f, key, k - 1, n);
      var h := Hash(m, f, k - 1, key);
      WithBitMeaning(Marked(m, f, key, k - 1).data, h, n);
    }
  }

  /** Inserting sets just the bits the key is hashed to. */
  lemma InsertedBits(m: Murmur, f: Filter, key: Data, n: nat)
    requires Usable(f) && n < |f.data| * 8
    ensures Bit(Inserted(m, f, key).data, n) <==> Bit(f.data, n) || (!Full(f) && Hit(m, f, key, f.hashFuncs, n))
  {
    MarkedBits(m, f, key, f.hashFuncs, n);
  }

  /** The same by the bytes: after inserting, a bit is on exactly if it was on or one
      of the hash functions, with its own seed, gives its number. */
  lemma InsertedExactly(m: Murmur, f: Filter, key: Data, n: nat)
    requires Usable(f) && n < |f.data| * 8
    ensures (Inserted(m, f, key).data[n / 8] >> (n % 8)) & 1 == 1 <==>
      || (f.data[n / 8] >> (n % 8)) & 1 == 1
      || exists i: nat :: i < f.hashFuncs && m(Seed(i, f.tweak), key) % (|f.data| * 8) == n
  {
    hide Inserted, TestBit;
    InsertedBits(m, f, key, n);
    BitFromLowest(f.data[n / 8], n % 8);
    BitFromLowest(Inserted(m, f, key).data[n / 8], n % 8);
    if Full(f) { FullBit(n); }
    HitExactly(m, f, key, n);
    hide Hit, Seed;
  }

  lemma HitExactly(m: Murmur, f: Filter, key: Data, n: nat)
    requires Usable(f)
    ensures Hit(m, f, key, f.hashFuncs, n) <==>
      exists i: nat :: i < f.hashFuncs && m(Seed(i, f.tweak), key) % (|f.data| * 8) == n
  {
    hide Seed;
    if i: nat :| i < f.hashFuncs && m(Seed(i, f.tweak), key) % (|f.data| * 8) == n {
      assert Hash(m, f, i, key) == n;
    }
  }

  lemma FullBit(n: nat)
    requires n < 8
    ensures Bit([0xff], n)
  {
  }

  /** A key is reported exactly if all its bits are on; the shortcut for the filter
      that matches everything makes no difference. */
  lemma ContainsExactly(m: Murmur, f: Filter, key: Data)
    requires Usable(f)
    ensures Contains(m, f, key) <==>
      forall i: nat | i < f.hashFuncs :: Bit(f.data, m(Seed(i, f.tweak), key) % (|f.data| * 8))
  {
    hide Bit, Seed;
    forall i: nat | i < f.hashFuncs
      ensures Contains(m, f, key) ==> Bit(f.data, m(Seed(i, f.tweak), key) % (|f.data| * 8))
    {
      var n := m(Seed(i, f.tweak), key) % (|f.data| * 8);
      assert Hash(m, f, i, key) == n;
      if Full(f) {
        FullBit(n);
        assert f.data == [0xff];
      }
    }
  }

  // ----- growth -----------------------------------------------------------------------

  /** The same filter with perhaps more bits. */
  ghost predicate Grown(f: Filter, g: Filter)
    requires Usable(f)
  {
    && |g.data| == |f.data| && g == f.(data := g.data)
    && (Full(f) ==> Full(g))
    && forall n: nat | n < |f.data| * 8 :: Bit(f.data, n) ==> Bit(g.data, n)
  }

  lemma GrownContains(m: Murmur, f: Filter, g: Filter, key: Data)
    requires Usable(f) && Grown(f, g) && Contains(m, f, key)
    ensures Contains(m, g, key)
  {
    hide Bit;
    forall i: nat | i < f.hashFuncs && !Full(f) ensures Bit(g.data, Hash(m, g, i, key)) {
      assert Hash(m, g, i, key) == Hash(m, f, i, key);
      assert Bit(f.data, Hash(m, f, i, key));
    }
  }

  lemma GrownTwice(f: Filter, g: Filter, h: Filter)
    requires Usable(f) && Grown(f, g) && Grown(g, h)
    ensures Grown(f, h)
  {
    hide Bit, Full;
  }

  lemma InsertGrows(m: Murmur, f: Filter, key: Data)
    requires Usable(f)
    ensures Grown(f, Inserted(m, f, key)) && Contains(m, Inserted(m, f, key), key)
  {
    hide Bit, Full, Hash;
    var g := Inserted(m, f, key);
    forall n: nat | n < |f.data| * 8 ensures Bit(f.data, n) ==> Bit(g.data, n) {
      InsertedBits(m, f, key, n);
    }
    forall i: nat | i < f.hashFuncs && !Full(f) ensures Bit(g.data, Hash(m, g, i, key)) {
      var n := Hash(m, f, i, key);
      SameHash(m, f, g, i, key);
      InsertedBits(m, f, key, n);
    }
  }

  lemma SameHash(m: Murmur, f: Filter, g: Filter, i: nat, key: Data)
    requires Usable(f) && |g.data| == |f.data| && g == f.(data := g.data)
    ensures Hash(m, g, i, key) == Hash(m, f, i, key)
  {
  }

  // ----- transactions -------------------------------------------------------------------

  datatype OutPoint = OutPoint(hash: Data, n: nat)

  /** The data vectors a script's operations push, up to where it fails to parse. */
  type Script = seq<Data>

  /** An output: its script, and whether it pays to public keys directly. */
  datatype TxOut = TxOut(script: Script, payToPubKey: bool)
  datatype TxIn = TxIn(prevout: OutPoint, script: Script)
  datatype Transaction = Transaction(vin: seq<TxIn>, vout: seq<TxOut>)

  /** The hash and the index, little-endian. */
  function OutPointData(o: OutPoint): Data {
    o.hash + [o.n % 0x100, o.n / 0x100 % 0x100, o.n / 0x1_0000 % 0x100, o.n / 0x100_0000 % 0x100]
  }

  lemma OutPointBytes(o: OutPoint, j: nat)
    requires j < 4
    ensures var d := OutPointData(o);
      |d| == |o.hash| + 4 && o.hash <= d && d[|o.hash| + j] == o.n / Radix.Pow(256, j) % 256
  {
    assert Radix.Pow(256, 0) == 1 && Radix.Pow(256, 1) == 0x100;
    assert Radix.Pow(256, 2) == 0x1_0000 && Radix.Pow(256, 3) == 0x100_0000;
  }

  ghost predicate ScriptMatches(m: Murmur, f: Filter, s: Script)
    requires Usable(f)
  {
    exists d <- s :: d != [] && Contains(m, f, d)
  }

  ghost predicate InputMatches(m: Murmur, f: Filter, txin: TxIn)
    requires Usable(f)
  {
    Contains(m, f, OutPointData(txin.prevout)) || ScriptMatches(m, f, txin.script)
  }

  /** What a transaction is relevant for, whatever the update flags. */
  ghost predicate Relevant(m: Murmur, f: Filter, tx: Transaction, hash: Data)
    requires Usable(f)
  {
    || Contains(m, f, hash)
    || (exists i | 0 <= i < |tx.vout| :: ScriptMatches(m, f, tx.vout[i].script))
    || (exists j | 0 <= j < |tx.vin| :: InputMatches(m, f, tx.vin[j]))
  }

  /** What of a transaction is looked up: its hash, the data its scripts push, and
      the outpoints it spends. */
  ghost predicate Mentions(tx: Transaction, hash: Data, key: Data) {
    || key == hash
    || (key != [] && exists i | 0 <= i < |tx.vout| :: key in tx.vout[i].script)
    || (exists j | 0 <= j < |tx.vin| ::
          key == OutPointData(tx.vin[j].prevout) || (key != [] && key in tx.vin[j].script))
  }

  lemma RelevantExactly(m: Murmur, f: Filter, tx: Transaction, hash: Data)
    requires Usable(f)
    ensures Relevant(m, f, tx, hash) <==> exists key :: Mentions(tx, hash, key) && Contains(m, f, key)
  {
    hide Contains, OutPointData;
    if Relevant(m, f, tx, hash) {
      if Contains(m, f, hash) {
        assert Mentions(tx, hash, hash);
      } else if i :| 0 <= i < |tx.vout| && ScriptMatches(m, f, tx.vout[i].script) {
        var d :| d in tx.vout[i].script && d != [] && Contains(m, f, d);
        assert Mentions(tx, hash, d);
      } else {
        var j :| 0 <= j < |tx.vin| && InputMatches(m, f, tx.vin[j]);
        var o := OutPointData(tx.vin[j].prevout);
        if Contains(m, f, o) {
          assert Mentions(tx, hash, o);
        } else {
          var d :| d in tx.vin[j].script && d != [] && Contains(m, f, d);
          assert Mentions(tx, hash, d);
        }
      }
    }
    forall key | Mentions(tx, hash, key) && Contains(m, f, key) ensures Relevant(m, f, tx, hash) {
      MentionRelevant(m, f, tx, hash, key);
    }
  }

  lemma MentionRelevant(m: Murmur, f: Filter, tx: Transaction, hash: Data, key: Data)
    requires Usable(f) && Mentions(tx, hash, key) && Contains(m, f, key)
    ensures Relevant(m, f, tx, hash)
  {
    hide Contains, OutPointData;
    if key != [] && exists i | 0 <= i < |tx.vout| :: key in tx.vout[i].script {
      var i :| 0 <= i < |tx.vout| && key in tx.vout[i].script;
      assert ScriptMatches(m, f, tx.vout[i].script);
    } else if key != hash {
      var j :| 0 <= j < |tx.vin|
        && (key == OutPointData(tx.vin[j].prevout) || (key != [] && key in tx.vin[j].script));
      assert InputMatches(m, f, tx.vin[j]);
    }
  }

  /** Whether the flags ask for a matched output to be added. */
  predicate Wanted(flags: nat, txout: TxOut) {
    flags % 4 == BLOOM_UPDATE_ALL || (flags % 4 == BLOOM_UPDATE_P2PUBKEY_ONLY && txout.payToPubKey)
  }

  ghost function Updated(m: Murmur, f: Filter, txout: TxOut, o: OutPoint): (g: Filter)
    requires Usable(f)
    ensures |g.data| == |f.data| && g == f.(data := g.data)
  {
    if ScriptMatches(m, f, txout.script) && Wanted(f.flags, txout) then Inserted(m, f, OutPointData(o)) else f
  }

  /** The filter after the first `k` outputs, each judged by the filter the ones
      before it left. */
  ghost function UpdatedBy(m: Murmur, f: Filter, tx: Transaction, hash: Data, k: nat): (g: Filter)
    requires Usable(f) && k <= |tx.vout|
    ensures |g.data| == |f.data| && g == f.(data := g.data)
  {
    if k == 0 then f
    else Updated(m, UpdatedBy(m, f, tx, hash, k - 1), tx.vout[k - 1], OutPoint(hash, k - 1))
  }

  /** One output: it is added exactly if it matches the filter the outputs before it
      left, and the flags, modulo 4, are 1, or 2 for an output to public keys. */
  lemma UpdatedStep(m: Murmur, f: Filter, tx: Transaction, hash: Data, k: nat)
    requires Usable(f) && k < |tx.vout|
    ensures var g := UpdatedBy(m, f, tx, hash, k);
      UpdatedBy(m, f, tx, hash, k + 1) ==
        if ScriptMatches(m, g, tx.vout[k].script)
           && (f.flags % 4 == 1 || (f.flags % 4 == 2 && tx.vout[k].payToPubKey))
        then Inserted(m, g, OutPointData(OutPoint(hash, k))) else g
  {
    hide ScriptMatches, Inserted, OutPointData;
  }

  /** Under other flags than 1 and 2 modulo 4, and under 2 without a matched output to
      public keys, the filter stays. */
  lemma {:induction false} UnaskedStays(m: Murmur, f: Filter, tx: Transaction, hash: Data, k: nat)
    requires Usable(f) && k <= |tx.vout|
    requires f.flags % 4 != 1
    requires f.flags % 4 == 2 ==>
      forall i | 0 <= i < k :: tx.vout[i].payToPubKey ==> !ScriptMatches(m, f, tx.vout[i].script)
    ensures UpdatedBy(m, f, tx, hash, k) == f
  {
    hide ScriptMatches, Inserted, OutPointData;
    if k > 0 {
      UnaskedStays(m, f, tx, hash, k - 1);
      UpdatedStep(m, f, tx, hash, k - 1);
    } else {
      UpdatedByNone(m, f, tx, hash);
    }
  }

  lemma UpdatedGrows(m: Murmur, f: Filter, txout: TxOut, o: OutPoint)
    requires Usable(f)
    ensures Grown(f, Updated(m, f, txout, o))
  {
    hide Bit, Contains, Inserted;
    InsertGrows(m, f, OutPointData(o));
  }

  lemma {:induction false} UpdatedByGrows(m: Murmur, f: Filter, tx: Transaction, hash: Data, j: nat, k: nat)
    requires Usable(f) && j <= k <= |tx.vout|
    ensures Grown(UpdatedBy(m, f, tx, hash, j), UpdatedBy(m, f, tx, hash, k))
  {
    if j < k {
      hide Bit, Updated, Grown;
      UpdatedByGrows(m, f, tx, hash, j, k - 1);
      var g := UpdatedBy(m, f, tx, hash, k - 1);
      UpdatedGrows(m, g, tx.vout[k - 1], OutPoint(hash, k - 1));
      GrownTwice(UpdatedBy(m, f, tx, hash, j), g, UpdatedBy(m, f, tx, hash, k));
    } else {
      GrownSelf(UpdatedBy(m, f, tx, hash, j));
    }
  }

  lemma GrownSelf(f: Filter)
    requires Usable(f)
    ensures Grown(f, f)
  {
  }

  /** Until an output matches the filter as it was, the filter stays as it was. */
  lemma {:induction false} UnmatchedStays(m: Murmur, f: Filter, tx: Transaction, hash: Data, k: nat)
    requires Usable(f) && k <= |tx.vout|
    requires forall i | 0 <= i < k :: !ScriptMatches(m, f, tx.vout[i].script)
    ensures UpdatedBy(m, f, tx, hash, k) == f
  {
    if k > 0 { UnmatchedStays(m, f, tx, hash, k - 1); }
  }

  lemma IrrelevantStays(m: Murmur, f: Filter, tx: Transaction, hash: Data)
    requires Usable(f) && !Relevant(m, f, tx, hash)
    ensures UpdatedBy(m, f, tx, hash, |tx.vout|) == f
  {
    hide ScriptMatches;
    UnmatchedStays(m, f, tx, hash, |tx.vout|);
  }

  /** A matched output, if the flags are 1 modulo 4, or 2 and it pays to public keys,
      can be found by its spender from then on. */
  lemma MatchedAdded(m: Murmur, f: Filter, tx: Transaction, hash: Data, i: nat)
    requires Usable(f) && i < |tx.vout|
    requires f.flags % 4 == 1 || (f.flags % 4 == 2 && tx.vout[i].payToPubKey)
    requires ScriptMatches(m, f, tx.vout[i].script)
    ensures Contains(m, UpdatedBy(m, f, tx, hash, |tx.vout|), OutPointData(OutPoint(hash, i)))
  {
    hide Bit, Grown, Contains, Inserted, OutPointData;
    var g := UpdatedBy(m, f, tx, hash, i);
    var o := OutPoint(hash, i);
    UpdatedByGrows(m, f, tx, hash, 0, i);
    ScriptStillMatches(m, f, g, tx.vout[i].script);
    InsertGrows(m, g, OutPointData(o));
    UpdatedByGrows(m, f, tx, hash, i + 1, |tx.vout|);
    GrownContains(m, UpdatedBy(m, f, tx, hash, i + 1), UpdatedBy(m, f, tx, hash, |tx.vout|), OutPointData(o));
  }

  lemma UpdateSummary(m: Murmur, f: Filter, tx: Transaction, hash: Data)
    requires Usable(f)
    ensures var g := UpdatedBy(m, f, tx, hash, |tx.vout|);
      && (f.flags % 4 in {0, 3} || !Relevant(m, f, tx, hash) ==> g == f)
      && forall i: nat | i < |tx.vout| ::
           && ScriptMatches(m, f, tx.vout[i].script)
           && (f.flags % 4 == 1 || (f.flags % 4 == 2 && tx.vout[i].payToPubKey))
           ==> Contains(m, g, OutPointData(OutPoint(hash, i)))
  {
    hide Contains, ScriptMatches, OutPointData, UpdatedBy, Relevant;
    if f.flags % 4 in {0, 3} { UnaskedStays(m, f, tx, hash, |tx.vout|); }
    if !Relevant(m, f, tx, hash) { IrrelevantStays(m, f, tx, hash); }
    forall i: nat | i < |tx.vout| && ScriptMatches(m, f, tx.vout[i].script)
                    && (f.flags % 4 == 1 || (f.flags % 4 == 2 && tx.vout[i].payToPubKey))
      ensures Contains(m, UpdatedBy(m, f, tx, hash, |tx.vout|), OutPointData(OutPoint(hash, i)))
    {
      MatchedAdded(m, f, tx, hash, i);
    }
  }

  lemma ScriptStillMatches(m: Murmur, f: Filter, g: Filter, s: Script)
    requires Usable(f) && Grown(f, g) && ScriptMatches(m, f, s)
    ensures ScriptMatches(m, g, s)
  {
    hide Contains;
    var d :| d in s && d != [] && Contains(m, f, d);
    GrownContains(m, f, g, d);
  }

  // ----- runs ----------------------------------------------------------------------------

  datatype Call = Insert(key: Data) | Match(tx: Transaction, hash: Data)

  ghost function After(m: Murmur, f: Filter, call: Call): (g: Filter)
    requires Usable(f)
    ensures |g.data| == |f.data| && g == f.(data := g.data)
  {
    match call
    case Insert(key) => Inserted(m, f, key)
    case Match(tx, hash) => UpdatedBy(m, f, tx, hash, |tx.vout|)
  }

  ghost function Run(m: Murmur, f: Filter, calls: seq<Call>): (g: Filter)
    requires Usable(f)
    ensures |g.data| == |f.data| && g == f.(data := g.data)
  {
    if calls == [] then f else After(m, Run(m, f, calls[..|calls| - 1]), calls[|calls| - 1])
  }

  lemma AfterGrows(m: Murmur, f: Filter, call: Call)
    requires Usable(f)
    ensures Grown(f, After(m, f, call))
  {
    hide Grown, Inserted, UpdatedBy;
    match call
    case Insert(key) => InsertGrows(m, f, key);
    case Match(tx, hash) =>
      UpdatedByGrows(m, f, tx, hash, 0, |tx.vout|);
      assert UpdatedBy(m, f, tx, hash, 0) == f by { UpdatedByNone(m, f, tx, hash); }
  }

  lemma UpdatedByNone(m: Murmur, f: Filter, tx: Transaction, hash: Data)
    requires Usable(f)
    ensures UpdatedBy(m, f, tx, hash, 0) == f
  {
  }

  lemma {:induction false} RunGrows(m: Murmur, f: Filter, calls: seq<Call>, j: nat)
    requires Usable(f) && j <= |calls|
    ensures Grown(Run(m, f, calls[..j]), Run(m, f, calls))
  {
    hide Grown, After;
    if j == |calls| {
      assert calls[..j] == calls;
      GrownSelf(Run(m, f, calls));
    } else {
      var front := calls[..|calls| - 1];
      RunGrows(m, f, front, j);
      assert front[..j] == calls[..j];
      AfterGrows(m, Run(m, f, front), calls[|calls| - 1]);
      GrownTwice(Run(m, f, calls[..j]), Run(m, f, front), Run(m, f, calls));
    }
  }

  lemma RunStep(m: Murmur, f: Filter, calls: seq<Call>, j: nat)
    requires Usable(f) && j < |calls|
    ensures Run(m, f, calls[..j + 1]) == After(m, Run(m, f, calls[..j]), calls[j])
  {
    assert calls[..j + 1][..j] == calls[..j];
  }

  /** No false negative: a key inserted at any time is reported ever after. */
  lemma NeverAbsent(m: Murmur, f: Filter, calls: seq<Call>, key: Data)
    requires Usable(f) && Insert(key) in calls
    ensures Contains(m, Run(m, f, calls), key)
  {
    hide Grown, Contains, Inserted, Run;
    var j :| 0 <= j < |calls| && calls[j] == Insert(key);
    RunStep(m, f, calls, j);
    InsertGrows(m, Run(m, f, calls[..j]), key);
    RunGrows(m, f, calls, j + 1);
    GrownContains(m, Run(m, f, calls[..j + 1]), Run(m, f, calls), key);
  }

  /** A transaction that mentions a key inserted at any time is relevant ever after. */
  lemma NeverMissed(m: Murmur, f: Filter, calls: seq<Call>, key: Data, tx: Transaction, hash: Data)
    requires Usable(f) && Insert(key) in calls && Mentions(tx, hash, key)
    ensures Relevant(m, Run(m, f, calls), tx, hash)
  {
    NeverAbsent(m, f, calls, key);
    MentionRelevant(m, Run(m, f, calls), tx, hash, key);
    hide Contains, Relevant, Mentions;
  }

  /** A transaction that spends an output which matched at any time, and which the
      flags had added, is relevant ever after. */
  lemma SpenderFound(m: Murmur, f: Filter, calls: seq<Call>, j: nat, i: nat, spender: Transaction, hash: Data)
    requires Usable(f) && j < |calls| && calls[j].Match? && i < |calls[j].tx.vout|
    requires ScriptMatches(m, Run(m, f, calls[..j]), calls[j].tx.vout[i].script)
    requires f.flags % 4 == 1 || (f.flags % 4 == 2 && calls[j].tx.vout[i].payToPubKey)
    requires exists k :: 0 <= k < |spender.vin| && spender.vin[k].prevout == OutPoint(calls[j].hash, i)
    ensures Relevant(m, Run(m, f, calls), spender, hash)
  {
    hide Grown, Contains, UpdatedBy, Run, ScriptMatches, OutPointData;
    var before := Run(m, f, calls[..j]);
    var o := OutPoint(calls[j].hash, i);
    MatchedAdded(m, before, calls[j].tx, calls[j].hash, i);
    RunStep(m, f, calls, j);
    RunGrows(m, f, calls, j + 1);
    GrownContains(m, Run(m, f, calls[..j + 1]), Run(m, f, calls), OutPointData(o));
    var k :| 0 <= k < |spender.vin| && spender.vin[k].prevout == o;
    assert InputMatches(m, Run(m, f, calls), spender.vin[k]);
  }

  // ----- the filter in place ------------------------------------------------------------------

  class CBloomFilter {
    const vData: array<bv8>
    const nHashFuncs: nat
    const nTweak: nat
    const nFlags: nat

    constructor (data: array<bv8>, hashFuncs: nat, tweak: nat, flags: nat)
      requires data.Length > 0
      ensures vData == data && View() == Filter(data[..], hashFuncs, tweak, flags) && Usable(View())
    {
      vData, nHashFuncs, nTweak, nFlags := data, hashFuncs, tweak, flags;
    }

    function View(): Filter
      reads vData
    {
      Filter(vData[..], nHashFuncs, nTweak, nFlags)
    }

    method Insert(m: Murmur, vKey: Data)
      requires Usable(View())
      modifies vData
      ensures View() == Inserted(m, old(View()), vKey)
    {
      if vData.Length == 1 && vData[0] == 0xff {
        assert vData[..] == [0xff];
        return;
      }
      ghost var f := View();
      assert f.data[0] == vData[0] && !Full(f);
      hide Hash, WithBit, Marked;
      MarkedNone(m, f, vKey);
      for i := 0 to nHashFuncs
        invariant vData[..] == Marked(m, f, vKey, i).data
      {
        SameHash(m, f, View(), i, vKey);
        MarkedStep(m, f, vKey, i);
        var nIndex := Hash(m, View(), i, vKey);
        SetBit(nIndex);
      }
    }

    method SetBit(nIndex: nat)
      requires nIndex < vData.Length * 8
      modifies vData
      ensures vData[..] == WithBit(old(vData[..]), nIndex)
    {
      vData[nIndex / 8] := vData[nIndex / 8] | BitMask(nIndex % 8);
    }

    method ContainsKey(m: Murmur, vKey: Data) returns (found: bool)
      requires Usable(View())
      ensures found <==> Contains(m, View(), vKey)
    {
      ghost var f := View();
      if vData.Length == 1 && vData[0] == 0xff {
        assert vData[..] == [0xff];
        return true;
      }
      assert f.data[0] == vData[0] && !Full(f);
      hide Hash, Bit;
      for i := 0 to nHashFuncs
        invariant forall k: nat | k < i :: Bit(f.data, Hash(m, f, k, vKey))
      {
        var nIndex := Hash(m, View(), i, vKey);
        var on := GetBit(nIndex);
        if !on {
          assert !Bit(f.data, Hash(m, f, i, vKey));
          return false;
        }
      }
      return true;
    }

    method GetBit(nIndex: nat) returns (on: bool)
      requires nIndex < vData.Length * 8
      ensures on <==> Bit(vData[..], nIndex)
    {
      on := vData[nIndex / 8] & BitMask(nIndex % 8) != 0;
    }

    method MatchScript(m: Murmur, s: Script) returns (found: bool)
      requires Usable(View())
      ensures found <==> ScriptMatches(m, View(), s)
    {
      hide Contains;
      var pc := 0;
      while pc < |s|
        invariant pc <= |s| && forall k | 0 <= k < pc :: s[k] == [] || !Contains(m, View(), s[k])
      {
        var data := s[pc];
        pc := pc + 1;
        if data != [] {
          var hit := ContainsKey(m, data);
          if hit { return true; }
        }
      }
      return false;
    }

    method IsRelevantAndUpdate(m: Murmur, tx: Transaction, hash: Data) returns (relevant: bool)
      requires Usable(View())
      modifies vData
      ensures relevant <==> Relevant(m, old(View()), tx, hash)
      ensures View() == UpdatedBy(m, old(View()), tx, hash, |tx.vout|)
      ensures nFlags % 4 in {0, 3} || !relevant ==> View() == old(View())
      ensures forall i: nat | i < |tx.vout| ::
        && ScriptMatches(m, old(View()), tx.vout[i].script)
        && (nFlags % 4 == 1 || (nFlags % 4 == 2 && tx.vout[i].payToPubKey))
        ==> Contains(m, View(), OutPointData(OutPoint(hash, i)))
    {
      hide Contains, ScriptMatches, Inserted, OutPointData;
      ghost var f := View();
      UpdateSummary(m, f, tx, hash);
      var fFound := ContainsKey(m, hash);
      for i := 0 to |tx.vout|
        invariant View() == UpdatedBy(m, f, tx, hash, i)
        invariant fFound <==> Contains(m, f, hash) || exists k | 0 <= k < i :: ScriptMatches(m, f, tx.vout[k].script)
        invariant !fFound ==> View() == f
      {
        var txout := tx.vout[i];
        var hit := MatchScript(m, txout.script);
        if hit {
          if !fFound { assert ScriptMatches(m, f, tx.vout[i].script); }
          fFound := true;
          if nFlags % 4 == BLOOM_UPDATE_ALL {
            Insert(m, OutPointData(OutPoint(hash, i)));
          } else if nFlags % 4 == BLOOM_UPDATE_P2PUBKEY_ONLY {
            if txout.payToPubKey { Insert(m, OutPointData(OutPoint(hash, i))); }
          }
        }
      }
      if fFound { return true; }
      for j := 0 to |tx.vin|
        invariant View() == f && forall k | 0 <= k < j :: !InputMatches(m, f, tx.vin[k])
      {
        var txin := tx.vin[j];
        var spends := ContainsKey(m, OutPointData(txin.prevout));
        if spends {
          assert InputMatches(m, f, tx.vin[j]);
          return true;
        }
        var hit := MatchScript(m, txin.script);
        if hit {
          assert InputMatches(m, f, tx.vin[j]);
          return true;
        }
      }
      return false;
    }
  }
}
