/**
 * The direct-address membership set over the 32-bit key space: 2^26 words
 * of 64 bits, bit `n % 64` of word `n / 64` standing for key `n`.
 *
 * The first half states the abstract model on a sequence of words (which
 * keys it holds, what inserting a key does to it, how many keys it holds);
 * the class `BitSet` then keeps the words in an array and its methods are
 * proved against that model.
 */
module BitSets {
  import opened Words

  /** The number of storage words: 2^32 bits / 64 bits per word. */
  const WordCount: nat := 0x400_0000

  /** The number of possible keys, 2^32. */
  const KeySpace: nat := 0x1_0000_0000

  /** Go's `uint32`. */
  type Key = n: int | 0 <= n < 0x1_0000_0000

  /** Go's `uint64`, the type of the population-count accumulator. */
  type Uint64 = x: int | 0 <= x < 0x1_0000_0000_0000_0000

  /** Key `n` is held by the words `ws`: it is in range and its bit is one. */
  ghost predicate IsMember(ws: seq<Word>, n: int)
  {
    0 <= n < 64 * |ws| && Bit(ws[n / 64], BitPos(n % 64))
  }

  /** `IsMember` as a function value, so that counting lemmas can be stated once for any predicate. */
  ghost function Holds(ws: seq<Word>): int -> bool
  {
    n => IsMember(ws, n)
  }

  /** The integers in `[0, k)` for which `holds` is true. */
  ghost function KeysBelow(holds: int -> bool, k: int): set<int>
  {
    set n | 0 <= n < k && holds(n)
  }

  /** The abstract value of a bitmap: the set of keys whose bit is one. */
  ghost function Members(ws: seq<Word>): set<int>
  {
    KeysBelow(Holds(ws), 64 * |ws|)
  }

  /** The words after `Set(n)`: word `n / 64` with bit `n % 64` OR-ed in. */
  function Inserted(ws: seq<Word>, n: nat): (r: seq<Word>)
    requires n < 64 * |ws|
  {
    ws[n / 64 := SetBit(ws[n / 64], BitPos(n % 64))]
  }

  lemma UpdateTwice<T>(s: seq<T>, i: nat, x: T, y: T)
    requires i < |s|
    ensures s[i := x][i := y] == s[i := y]
  {
  }

  lemma UpdatesCommute<T>(s: seq<T>, i: nat, x: T, j: nat, y: T)
    requires i < |s| && j < |s| && i != j
    ensures s[i := x][j := y] == s[j := y][i := x]
  {
  }

  /** Sum of the per-word population counts, folded from the first word on. */
  function SumPopCount(ws: seq<Word>): nat
  {
    if ws == [] then 0 else SumPopCount(ws[..|ws| - 1]) + PopCount(ws[|ws| - 1])
  }

  /** Word index and bit position of a key that lies in word `i` at bit `p`. */
  lemma {:induction false} SplitKey(i: nat, p: nat)
    requires p < 64
    ensures (64 * i + p) / 64 == i && (64 * i + p) % 64 == p
  {
  }

  /** The bitmap never indexes out of bounds: every 32-bit key has a word and a bit. */
  lemma {:induction false} KeyInRange(n: Key)
    ensures n / 64 < WordCount && 0 <= n % 64 < 64
    ensures n < 64 * WordCount
  {
  }

  /** Two distinct keys of the same word sit at distinct bit positions. */
  lemma {:induction false} PosDistinct(m: int, n: int)
    requires 0 <= m && 0 <= n && m / 64 == n / 64 && m != n
    ensures BitPos(m % 64) != BitPos(n % 64)
  {
    assert m % 64 != n % 64;
    BitPosInjective(m % 64, n % 64);
  }

  /** Reading word `j` after inserting `n`. */
  lemma {:induction false} InsertedAt(ws: seq<Word>, n: nat, j: int)
    requires n < 64 * |ws| && 0 <= j < |ws|
    ensures Inserted(ws, n)[j] == if j == n / 64 then SetBit(ws[j], BitPos(n % 64)) else ws[j]
  {
  }

  /** Membership of an in-range key is the bit at its word and position. */
  lemma {:induction false} MemberBit(ws: seq<Word>, m: int)
    requires 0 <= m < 64 * |ws|
    ensures IsMember(ws, m) == Bit(ws[m / 64], BitPos(m % 64))
  {
  }

  lemma {:induction false} InsertOtherWord(ws: seq<Word>, n: nat, m: int)
    requires n < 64 * |ws| && 0 <= m < 64 * |ws| && m / 64 != n / 64
    ensures IsMember(Inserted(ws, n), m) == IsMember(ws, m)
  {
    InsertedAt(ws, n, m / 64);
    MemberBit(ws, m);
    MemberBit(Inserted(ws, n), m);
  }

  lemma {:induction false} InsertSameKey(ws: seq<Word>, n: nat)
    requires n < 64 * |ws|
    ensures IsMember(Inserted(ws, n), n)
  {
    InsertedAt(ws, n, n / 64);
    MemberBit(Inserted(ws, n), n);
    BitOfSetSame(ws[n / 64], BitPos(n % 64));
  }

  lemma {:induction false} InsertSameWord(ws: seq<Word>, n: nat, m: int)
    requires n < 64 * |ws| && 0 <= m < 64 * |ws| && m / 64 == n / 64 && m != n
    ensures IsMember(Inserted(ws, n), m) == IsMember(ws, m)
  {
    PosDistinct(m, n);
    BitOfSetOther(ws[n / 64], BitPos(n % 64), BitPos(m % 64));
  }

  /** After inserting `n`, key `m` is a member exactly when it was one or is `n`. */
  lemma {:induction false} MemberAfterInsert(ws: seq<Word>, n: nat, m: int)
    requires n < 64 * |ws|
    ensures IsMember(Inserted(ws, n), m) <==> IsMember(ws, m) || m == n
  {
    if 0 <= m < 64 * |ws| {
      if m / 64 != n / 64 {
        InsertOtherWord(ws, n, m);
      } else if m == n {
        InsertSameKey(ws, n);
      } else {
        InsertSameWord(ws, n, m);
      }
    }
  }

  /** Inserting `n` adds exactly `n` to the abstract set. */
  lemma {:induction false} InsertedMembers(ws: seq<Word>, n: nat)
    requires n < 64 * |ws|
    ensures Members(Inserted(ws, n)) == Members(ws) + {n}
  {
    forall m
      ensures m in Members(Inserted(ws, n)) <==> m in Members(ws) + {n}
    {
      MemberAfterInsert(ws, n, m);
    }
  }

  /** Only word `n / 64` changes, and no bit that was one becomes zero. */
  lemma {:induction false} InsertedMonotone(ws: seq<Word>, n: nat)
    requires n < 64 * |ws|
    ensures |Inserted(ws, n)| == |ws|
    ensures forall i :: 0 <= i < |ws| && i != n / 64 ==> Inserted(ws, n)[i] == ws[i]
    ensures Members(ws) <= Members(Inserted(ws, n))
    ensures n in Members(Inserted(ws, n))
  {
    InsertedMembers(ws, n);
  }

  /** An insertion raises the count by one exactly when the key was not yet a member. */
  lemma {:induction false} InsertedCount(ws: seq<Word>, n: nat)
    requires n < 64 * |ws|
    ensures SumPopCount(Inserted(ws, n)) == SumPopCount(ws) + (if n in Members(ws) then 0 else 1)
  {
    InsertedMembers(ws, n);
    CountIsCardinality(ws);
    CountIsCardinality(Inserted(ws, n));
    if n in Members(ws) {
      assert Members(ws) + {n} == Members(ws);
    }
  }

  /** Inserting a key that is already a member leaves the words as they were. */
  lemma {:induction false} InsertPresent(ws: seq<Word>, n: nat)
    requires n < 64 * |ws|
    requires n in Members(ws)
    ensures Inserted(ws, n) == ws
  {
    assert IsMember(ws, n);
    SetPresentBit(ws[n / 64], BitPos(n % 64));
  }

  /** `Set(n); Set(n)` leaves the same words as one `Set(n)`. */
  lemma {:induction false} InsertIdempotent(ws: seq<Word>, n: nat)
    requires n < 64 * |ws|
    ensures Inserted(Inserted(ws, n), n) == Inserted(ws, n)
  {
    var i, p := n / 64, BitPos(n % 64);
    SetBitTwice(ws[i], p);
    UpdateTwice(ws, i, SetBit(ws[i], p), SetBit(SetBit(ws[i], p), p));
  }

  /** The order of two insertions does not matter. */
  lemma {:induction false} InsertCommutes(ws: seq<Word>, a: nat, b: nat)
    requires a < 64 * |ws| && b < 64 * |ws|
    ensures Inserted(Inserted(ws, a), b) == Inserted(Inserted(ws, b), a)
  {
    var i, j := a / 64, b / 64;
    var pa, pb := BitPos(a % 64), BitPos(b % 64);
    if i == j {
      var w := ws[i];
      SetBitSwap(w, pa, pb);
      UpdateTwice(ws, i, SetBit(w, pa), SetBit(SetBit(w, pa), pb));
      UpdateTwice(ws, i, SetBit(w, pb), SetBit(SetBit(w, pb), pa));
    } else {
      UpdatesCommute(ws, i, SetBit(ws[i], pa), j, SetBit(ws[j], pb));
    }
  }

  /** Words that are all zero hold no key. */
  lemma {:induction false} ZeroWordsEmpty(ws: seq<Word>)
    requires forall i :: 0 <= i < |ws| ==> ws[i] == 0
    ensures Members(ws) == {}
  {
    forall n | 0 <= n < 64 * |ws|
      ensures !IsMember(ws, n)
    {
      assert ws[n / 64] == 0;
      ZeroHasNoBit(BitPos(n % 64));
    }
    assert Members(ws) == {};
  }

  /** Extending the range by one position adds `k` exactly when `holds(k)`. */
  lemma {:induction false} KeysBelowGrow(holds: int -> bool, k: nat)
    ensures KeysBelow(holds, k + 1) == KeysBelow(holds, k) + (if holds(k) then {k} else {})
  {
  }

  lemma {:induction false} KeysBelowExcludes(holds: int -> bool, k: nat)
    ensures k !in KeysBelow(holds, k)
  {
  }

  /** One more position adds one element exactly when `holds` is true there. */
  lemma {:induction false} KeysBelowStep(holds: int -> bool, k: nat)
    ensures |KeysBelow(holds, k + 1)| == |KeysBelow(holds, k)| + (if holds(k) then 1 else 0)
  {
    KeysBelowGrow(holds, k);
    KeysBelowExcludes(holds, k);
  }

  /** Key `64 * i + p` is held exactly when bit `p` of word `i` is one. */
  lemma {:induction false} HoldsInWord(ws: seq<Word>, i: nat, p: nat)
    requires i < |ws| && p < 64
    ensures Holds(ws)(64 * i + p) == Bit(ws[i], BitPos(p))
  {
    SplitKey(i, p);
  }

  /** The first `p` bits of word `i` contribute the popcount of those bits. */
  lemma {:induction false} MembersBelowWord(ws: seq<Word>, i: nat, p: nat)
    requires i < |ws| && p <= 64
    ensures |KeysBelow(Holds(ws), 64 * i + p)| == |KeysBelow(Holds(ws), 64 * i)| + PopCountBelow(ws[i], p)
  {
    if p > 0 {
      var k := 64 * i + (p - 1);
      MembersBelowWord(ws, i, p - 1);
      KeysBelowStep(Holds(ws), k);
      HoldsInWord(ws, i, p - 1);
      assert k + 1 == 64 * i + p;
    }
  }

  /** The keys held by the first `i` words are counted by their popcounts. */
  lemma {:induction false} MembersBelowPrefix(ws: seq<Word>, i: nat)
    requires i <= |ws|
    ensures |KeysBelow(Holds(ws), 64 * i)| == SumPopCount(ws[..i])
  {
    if i == 0 {
      assert KeysBelow(Holds(ws), 0) == {};
    } else {
      MembersBelowPrefix(ws, i - 1);
      MembersBelowWord(ws, i - 1, 64);
      assert ws[..i][..i - 1] == ws[..i - 1];
    }
  }

  /** The sum of the word popcounts is the number of keys in the set. */
  lemma {:induction false} CountIsCardinality(ws: seq<Word>)
    ensures SumPopCount(ws) == |Members(ws)|
  {
    MembersBelowPrefix(ws, |ws|);
    assert ws[..|ws|] == ws;
  }

  /** Each word contributes at most 64, so the total is at most 64 per word. */
  lemma {:induction false} SumPopCountBound(ws: seq<Word>)
    ensures SumPopCount(ws) <= 64 * |ws|
  {
    if ws != [] {
      SumPopCountBound(ws[..|ws| - 1]);
    }
  }

  class BitSet {
    var data: array<Word>

    ghost predicate Valid()
      reads this
    {
      data.Length == WordCount
    }

    /** The keys inserted so far. */
    ghost function Elements(): set<int>
      reads this, data
      requires Valid()
    {
      Members(data[..])
    }

    /** `NewBitSet`: 2^26 zero words, so no key is a member. */
    constructor ()
      ensures Valid() && fresh(data)
      ensures forall i :: 0 <= i < data.Length ==> data[i] == 0
      ensures Elements() == {}
    {
      data := new Word[WordCount](_ => 0);
      new;
      ZeroWordsEmpty(data[..]);
    }

    /** Marks key `n`: word `n / 64` gets bit `n % 64`, nothing else changes. */
    method Set(n: Key)
      requires Valid()
      modifies data
      ensures Valid()
      ensures data[..] == Inserted(old(data[..]), n)
      ensures forall i :: 0 <= i < data.Length && i != n / 64 ==> data[i] == old(data[i])
      ensures Elements() == old(Elements()) + {n}
    {
      KeyInRange(n);
      var idx := n / 64;
      var pos := BitPos(n % 64);
      data[idx] := data[idx] | Mask(pos);
      assert data[..] == old(data[..])[idx := SetBit(old(data[idx]), pos)];
      InsertedMembers(old(data[..]), n);
    }

    /** Sums the popcounts of all words; the total is the number of keys held. */
    method Count() returns (total: Uint64)
      requires Valid()
      ensures total == |Elements()|
      ensures total <= KeySpace
    {
      total := 0;
      for i := 0 to data.Length
        invariant total == SumPopCount(data[..i])
      {
        assert data[..i + 1][..i] == data[..i];
        SumPopCountBound(data[..i + 1]);
        total := total + PopCount(data[i]);
      }
      assert data[..data.Length] == data[..];
      CountIsCardinality(data[..]);
      SumPopCountBound(data[..]);
    }
  }

  /** `NewBitSet().Count()`: a fresh set counts no key. */
  method CountOfNew() returns (count: Uint64)
    ensures count == 0
  {
    var b := new BitSet();
    count := b.Count();
  }
}
