/** HistoryOfAccounts: for each verkle key, the block numbers at which it changed, kept in
    shards of at most BlocksChunks numbers. The open (last) shard is stored under the key
    paired with ulong.MaxValue; a shard that fills up is stored under the key paired with
    its own last block number. Keys of the database are HistoryKey encodings: the 32 key
    bytes followed by the block bound as 8 big-endian bytes, so that for one key the
    database's byte order is the numeric order of the bound. The Elias-Fano and RLP codecs
    are not part of this model: a stored shard is its list of block numbers. */
module HistoryOfAccounts {

  import opened Prelude

  /** A verkle (Pedersen) key: 32 bytes. */
  type VerkleKey = k: seq<byte> | |k| == 32 witness [0, 0, 0, 0, 0, 0, 0, 0, 0, 0, 0, 0, 0, 0, 0, 0,
                                                     0, 0, 0, 0, 0, 0, 0, 0, 0, 0, 0, 0, 0, 0, 0, 0]

  const ULongModulus: nat := 0x1_0000_0000_0000_0000

  type ULong = n: nat | n < ULongModulus

  const ULongMaxValue: ULong := 0xFFFF_FFFF_FFFF_FFFF

  /** The default shard size. */
  const DefaultBlocksChunks := 2000

  /** 256^k. */
  function Pow256(k: nat): (r: nat)
    ensures r >= 1
  {
    if k == 0 then 1 else 256 * Pow256(k - 1)
  }

  lemma Pow256Of8()
    ensures Pow256(8) == ULongModulus
  {
  }

  /** Splitting `n` below 256·p into its top digit and the rest. */
  lemma SplitTopDigit(n: int, p: int)
    requires p > 0 && 0 <= n < 256 * p
    ensures n == (n / p) * p + n % p && 0 <= n % p < p && 0 <= n / p < 256
  {
    var q, r := n / p, n % p;
    assert n == q * p + r;
    if q >= 256 {
      MulLeft(256, q, p);
    }
    if q < 0 {
      MulLeft(q, -1, p);
    }
  }

  /** A top digit below 256 keeps the number below 256·p. */
  lemma JoinTopDigit(d: int, p: int, rest: int)
    requires 0 <= d < 256 && p > 0 && 0 <= rest < p
    ensures 0 <= d * p + rest < 256 * p
  {
    MulLeft(d, 255, p);
    MulNonNegative(d, p);
  }

  /** Two-digit numbers in base p compare by their top digits first. */
  lemma DigitOrder(da: int, ra: int, db: int, rb: int, p: int)
    requires 0 <= da && 0 <= db && 0 <= ra < p && 0 <= rb < p
    ensures da * p + ra < db * p + rb <==> da < db || (da == db && ra < rb)
  {
    if da < db {
      MulLeft(da + 1, db, p);
      assert da * p + p == (da + 1) * p;
    } else if da > db {
      MulLeft(db + 1, da, p);
      assert db * p + p == (db + 1) * p;
    }
  }

  /** The big-endian reading of a byte string. */
  function FromBigEndian(b: seq<byte>): (r: nat)
    ensures r < Pow256(|b|)
  {
    if |b| == 0 then 0
    else
      var p := Pow256(|b| - 1);
      var rest := FromBigEndian(b[1..]);
      JoinTopDigit(b[0] as int, p, rest);
      (b[0] as int) * p + rest
  }

  /** `n` as `len` big-endian bytes (WriteUInt64BigEndian for len 8). */
  function ToBigEndian(n: nat, len: nat): (r: seq<byte>)
    requires n < Pow256(len)
    ensures |r| == len
    ensures FromBigEndian(r) == n
  {
    if len == 0 then []
    else
      var p := Pow256(len - 1);
      SplitTopDigit(n, p);
      var rest := ToBigEndian(n % p, len - 1);
      var r := [(n / p) as byte] + rest;
      assert r[1..] == rest;
      r
  }

  /** Byte-wise lexicographic order on strings of equal length: the order the database
      iterates its keys in. */
  predicate LexLess(a: seq<byte>, b: seq<byte>)
    requires |a| == |b|
  {
    |a| > 0 && (a[0] < b[0] || (a[0] == b[0] && LexLess(a[1..], b[1..])))
  }

  /** For strings of equal length, byte order is numeric order of the big-endian values. */
  lemma {:induction false} LexLessIsNumericOrder(a: seq<byte>, b: seq<byte>)
    requires |a| == |b|
    ensures LexLess(a, b) <==> FromBigEndian(a) < FromBigEndian(b)
  {
    if |a| > 0 {
      var p := Pow256(|a| - 1);
      var ra, rb := FromBigEndian(a[1..]), FromBigEndian(b[1..]);
      LexLessIsNumericOrder(a[1..], b[1..]);
      DigitOrder(a[0] as int, ra, b[0] as int, rb, p);
    }
  }

  /** A common prefix does not decide the order. */
  lemma {:induction false} LexLessAfterPrefix(k: seq<byte>, x: seq<byte>, y: seq<byte>)
    requires |x| == |y|
    ensures LexLess(k + x, k + y) <==> LexLess(x, y)
  {
    if |k| == 0 {
      assert k + x == x && k + y == y;
    } else {
      assert (k + x)[0] == k[0] && (k + y)[0] == k[0];
      assert (k + x)[1..] == k[1..] + x;
      assert (k + y)[1..] == k[1..] + y;
      LexLessAfterPrefix(k[1..], x, y);
    }
  }

  datatype HistoryKey = HistoryKey(key: VerkleKey, maxBlock: ULong)

  /** HistoryKey.Encode: 40 bytes, the key then the bound big-endian. */
  function Encode(h: HistoryKey): (r: seq<byte>)
    ensures |r| == 40 && r[..32] == h.key
  {
    Pow256Of8();
    h.key + ToBigEndian(h.maxBlock, 8)
  }

  /** The last 8 bytes of an encoding read back, big-endian, as the bound. */
  lemma EncodeLayout(h: HistoryKey)
    ensures FromBigEndian(Encode(h)[32..]) == h.maxBlock
  {
    Pow256Of8();
    assert Encode(h)[32..] == ToBigEndian(h.maxBlock, 8);
  }

  /** Distinct history keys have distinct encodings. */
  lemma EncodeInjective(g: HistoryKey, h: HistoryKey)
    requires Encode(g) == Encode(h)
    ensures g == h
  {
    EncodeLayout(g);
    EncodeLayout(h);
  }

  /** For one key the encodings are ordered as the bounds: a seek to (key, n) finds the
      first shard whose bound is at least n among that key's shards. */
  lemma EncodeOrdersByBound(key: VerkleKey, a: ULong, b: ULong)
    ensures LexLess(Encode(HistoryKey(key, a)), Encode(HistoryKey(key, b))) <==> a < b
  {
    Pow256Of8();
    var x, y := ToBigEndian(a, 8), ToBigEndian(b, 8);
    assert Encode(HistoryKey(key, a)) == key + x;
    assert Encode(HistoryKey(key, b)) == key + y;
    LexLessAfterPrefix(key, x, y);
    LexLessIsNumericOrder(x, y);
  }

  /** The database: encoded history keys to shards (lists of block numbers). */
  type Db = map<seq<byte>, seq<ULong>>

  /** Where the open shard of `key` lives. */
  function OpenShardKey(key: VerkleKey): seq<byte>
  {
    Encode(HistoryKey(key, ULongMaxValue))
  }

  /** GetLastShardOfBlocks: the open shard, empty when there is none. */
  function GetLastShardOfBlocks(db: Db, key: VerkleKey): (r: seq<ULong>)
    ensures OpenShardKey(key) !in db ==> r == []
    ensures OpenShardKey(key) in db ==> r == db[OpenShardKey(key)]
  {
    if OpenShardKey(key) in db then db[OpenShardKey(key)] else []
  }

  /** InsertShard: a shard of exactly `blocksChunks` numbers is closed, stored under its
      last block number, and the open-shard entry is removed; any other shard becomes the
      open shard. */
  function InsertShard(db: Db, key: VerkleKey, shard: seq<ULong>, blocksChunks: int): (r: Db)
    requires |shard| > 0
    ensures |shard| == blocksChunks ==> OpenShardKey(key) !in r
    ensures |shard| == blocksChunks && shard[|shard| - 1] != ULongMaxValue ==>
              Encode(HistoryKey(key, shard[|shard| - 1])) in r &&
              r[Encode(HistoryKey(key, shard[|shard| - 1]))] == shard
    ensures |shard| != blocksChunks ==> OpenShardKey(key) in r && r[OpenShardKey(key)] == shard
    ensures forall h: HistoryKey :: h.key != key ==>
              (Encode(h) in r <==> Encode(h) in db) && (Encode(h) in db ==> r[Encode(h)] == db[Encode(h)])
  {
    if |shard| == blocksChunks then
      var closed := Encode(HistoryKey(key, shard[|shard| - 1]));
      var r := db[closed := shard] - {OpenShardKey(key)};
      if closed == OpenShardKey(key) then
        EncodeInjective(HistoryKey(key, shard[|shard| - 1]), HistoryKey(key, ULongMaxValue));
        r
      else r
    else db[OpenShardKey(key) := shard]
  }

  /** AppendHistoryBlockNumberForKey: the open shard with the new block number added, then
      stored by InsertShard. */
  function AppendHistoryBlockNumberForKey(db: Db, key: VerkleKey, blockNumber: ULong, blocksChunks: int): (r: Db)
    ensures var shard := GetLastShardOfBlocks(db, key) + [blockNumber];
            |shard| != blocksChunks ==> GetLastShardOfBlocks(r, key) == shard
    ensures var shard := GetLastShardOfBlocks(db, key) + [blockNumber];
            |shard| == blocksChunks ==> GetLastShardOfBlocks(r, key) == []
  {
    InsertShard(db, key, GetLastShardOfBlocks(db, key) + [blockNumber], blocksChunks)
  }

  /** Append the block numbers one after the other. */
  function AppendAll(db: Db, key: VerkleKey, blocks: seq<ULong>, blocksChunks: int): Db
  {
    if |blocks| == 0 then db
    else AppendHistoryBlockNumberForKey(AppendAll(db, key, blocks[..|blocks| - 1], blocksChunks),
                                        key, blocks[|blocks| - 1], blocksChunks)
  }

  /** n mod c by repeated subtraction. */
  function Rem(n: nat, c: nat): (r: nat)
    requires c > 0
    ensures r < c
  {
    if n < c then n else Rem(n - c, c)
  }

  /** Rem is the remainder of Euclidean division. */
  lemma {:induction false} RemIsMod(n: nat, c: nat)
    requires c > 0
    ensures Rem(n, c) == n % c
  {
    if n >= c {
      RemIsMod(n - c, c);
      var q := (n - c) / c;
      assert n - c == q * c + (n - c) % c;
      DivModUnique(n, c, q + 1, (n - c) % c);
    }
  }

  /** Counting one more: the remainder wraps to 0 or grows by one. */
  lemma {:induction false} RemStep(n: nat, c: nat)
    requires n > 0 && c > 0
    ensures Rem(n, c) == if Rem(n - 1, c) + 1 == c then 0 else Rem(n - 1, c) + 1
  {
    if n > c {
      RemStep(n - c, c);
    }
  }

  /** One append to an open shard that is not full: it grows by the block, or is closed
      when that fills it. */
  lemma AppendToOpenShard(db: Db, key: VerkleKey, blockNumber: ULong, blocksChunks: nat)
    requires |GetLastShardOfBlocks(db, key)| < blocksChunks
    ensures var open := GetLastShardOfBlocks(db, key);
            GetLastShardOfBlocks(AppendHistoryBlockNumberForKey(db, key, blockNumber, blocksChunks), key) ==
              if |open| + 1 == blocksChunks then [] else open + [blockNumber]
  {
  }

  /** The open shard after appending `blocks` to `open`, with a shard of `blocksChunks`
      numbers closed as soon as it fills. */
  function Rotate(open: seq<ULong>, blocks: seq<ULong>, blocksChunks: nat): (r: seq<ULong>)
    ensures |open| < blocksChunks ==> |r| < blocksChunks
  {
    if |blocks| == 0 then open
    else
      var before := Rotate(open, blocks[..|blocks| - 1], blocksChunks);
      if |before| + 1 == blocksChunks then [] else before + [blocks[|blocks| - 1]]
  }

  /** Appending to the database moves its open shard as Rotate says. */
  lemma {:induction false} AppendAllRotates(db: Db, key: VerkleKey, blocks: seq<ULong>, blocksChunks: nat)
    requires |GetLastShardOfBlocks(db, key)| < blocksChunks
    ensures GetLastShardOfBlocks(AppendAll(db, key, blocks, blocksChunks), key) ==
            Rotate(GetLastShardOfBlocks(db, key), blocks, blocksChunks)
  {
    if |blocks| > 0 {
      AppendAllRotates(db, key, blocks[..|blocks| - 1], blocksChunks);
      AppendToOpenShard(AppendAll(db, key, blocks[..|blocks| - 1], blocksChunks), key, blocks[|blocks| - 1], blocksChunks);
    }
  }

  /** From no open shard, the open shard is the last (count mod blocksChunks) blocks. */
  lemma {:induction false} RotateFromEmpty(blocks: seq<ULong>, blocksChunks: nat)
    requires blocksChunks > 0
    ensures |Rotate([], blocks, blocksChunks)| == Rem(|blocks|, blocksChunks)
    ensures Rotate([], blocks, blocksChunks) == blocks[|blocks| - Rem(|blocks|, blocksChunks)..]
  {
    var n := |blocks|;
    if n > 0 {
      RotateFromEmpty(blocks[..n - 1], blocksChunks);
      RemStep(n, blocksChunks);
      SuffixGrows(blocks, Rem(n - 1, blocksChunks));
    }
  }

  /** The last m blocks before the final one, then the final one, are the last m + 1. */
  lemma SuffixGrows(blocks: seq<ULong>, m: nat)
    requires m < |blocks|
    ensures blocks[..|blocks| - 1][|blocks| - 1 - m..] + [blocks[|blocks| - 1]] == blocks[|blocks| - 1 - m..]
  {
  }

  /** Shard rotation: starting with no open shard, after appending any number of blocks the
      open shard holds the last (count mod BlocksChunks) of them, so it never reaches
      BlocksChunks numbers. */
  lemma OpenShardIsRemainder(db: Db, key: VerkleKey, blocks: seq<ULong>, blocksChunks: nat)
    requires blocksChunks > 0 && GetLastShardOfBlocks(db, key) == []
    ensures var open := GetLastShardOfBlocks(AppendAll(db, key, blocks, blocksChunks), key);
            |open| == Rem(|blocks|, blocksChunks) &&
            open == blocks[|blocks| - Rem(|blocks|, blocksChunks)..]
  {
    AppendAllRotates(db, key, blocks, blocksChunks);
    RotateFromEmpty(blocks, blocksChunks);
  }

  /** The same, with the remainder written as `%`: the open shard is never full. */
  lemma OpenShardNeverFull(db: Db, key: VerkleKey, blocks: seq<ULong>, blocksChunks: nat)
    requires blocksChunks > 0 && GetLastShardOfBlocks(db, key) == []
    ensures |GetLastShardOfBlocks(AppendAll(db, key, blocks, blocksChunks), key)| == |blocks| % blocksChunks < blocksChunks
  {
    OpenShardIsRemainder(db, key, blocks, blocksChunks);
    RemIsMod(|blocks|, blocksChunks);
  }
}
