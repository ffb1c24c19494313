/**
 * The lookup tables of the fast hash table, and what they mean: the replacement byte of a row holds the
 * four columns in order of use, two bits a column, and every table is one operation on that order.
 */
module FastHashLookup {
  import opened Sequences

  /** One value for each of the four columns of a row. */
  datatype Four<T> = Four(a: T, b: T, c: T, d: T) {
    function At(col: nat): (x: T)
      requires col < 4
    {
      if col == 0 then a else if col == 1 then b else if col == 2 then c else d
    }

    function Put(col: nat, x: T): (f: Four<T>)
      requires col < 4
      ensures forall i: nat :: i < 4 ==> f.At(i) == if i == col then x else At(i)
    {
      if col == 0 then this.(a := x) else if col == 1 then this.(b := x) else if col == 2 then this.(c := x) else this.(d := x)
    }
  }

  /** The entries of `lt_replacement_vector` that are not zero. */
  function LtReplacementVector(vector: nat): (r: Four<nat>)
  {
    match vector
    case 0x1B => Four(0x6C, 0x63, 0x4B, 0x1B)
    case 0x1E => Four(0x6C, 0x63, 0x4E, 0x1E)
    case 0x27 => Four(0x78, 0x63, 0x4B, 0x27)
    case 0x2D => Four(0x6C, 0x72, 0x4E, 0x2D)
    case 0x36 => Four(0x78, 0x72, 0x4B, 0x36)
    case 0x39 => Four(0x78, 0x72, 0x4E, 0x39)
    case 0x4B => Four(0x9C, 0x93, 0x4B, 0x1B)
    case 0x4E => Four(0x9C, 0x93, 0x4E, 0x1E)
    case 0x63 => Four(0xB4, 0x63, 0x87, 0x27)
    case 0x6C => Four(0x6C, 0xB1, 0x8D, 0x2D)
    case 0x72 => Four(0xB4, 0x72, 0x87, 0x36)
    case 0x78 => Four(0x78, 0xB1, 0x8D, 0x39)
    case 0x87 => Four(0xD8, 0x93, 0x87, 0x1B)
    case 0x8D => Four(0x9C, 0xD2, 0x8D, 0x1E)
    case 0x93 => Four(0xE4, 0x93, 0x87, 0x27)
    case 0x9C => Four(0x9C, 0xE1, 0x8D, 0x2D)
    case 0xB1 => Four(0xB4, 0xB1, 0xC6, 0x36)
    case 0xB4 => Four(0xB4, 0xB1, 0xC9, 0x39)
    case 0xC6 => Four(0xD8, 0xD2, 0xC6, 0x1B)
    case 0xC9 => Four(0xD8, 0xD2, 0xC9, 0x1E)
    case 0xD2 => Four(0xE4, 0xD2, 0xC6, 0x27)
    case 0xD8 => Four(0xD8, 0xE1, 0xC9, 0x2D)
    case 0xE1 => Four(0xE4, 0xE1, 0xC6, 0x36)
    case 0xE4 => Four(0xE4, 0xE1, 0xC9, 0x39)
    case _ => Four(0, 0, 0, 0)
  }

  /** The entries of `lt_replacement_vector_remove` that are not zero. */
  function LtReplacementVectorRemove(vector: nat): (r: Four<nat>)
  {
    match vector
    case 0x1B => Four(0x1B, 0x1E, 0x36, 0xC6)
    case 0x1E => Four(0x1B, 0x1E, 0x39, 0xC9)
    case 0x27 => Four(0x27, 0x1E, 0x36, 0xD2)
    case 0x2D => Four(0x1B, 0x2D, 0x39, 0xD8)
    case 0x36 => Four(0x27, 0x2D, 0x36, 0xE1)
    case 0x39 => Four(0x27, 0x2D, 0x39, 0xE4)
    case 0x4B => Four(0x4B, 0x4E, 0x36, 0xC6)
    case 0x4E => Four(0x4B, 0x4E, 0x39, 0xC9)
    case 0x63 => Four(0x63, 0x1E, 0x72, 0xD2)
    case 0x6C => Four(0x1B, 0x6C, 0x78, 0xD8)
    case 0x72 => Four(0x63, 0x2D, 0x72, 0xE1)
    case 0x78 => Four(0x27, 0x6C, 0x78, 0xE4)
    case 0x87 => Four(0x87, 0x4E, 0x72, 0xC6)
    case 0x8D => Four(0x4B, 0x8D, 0x78, 0xC9)
    case 0x93 => Four(0x93, 0x4E, 0x72, 0xD2)
    case 0x9C => Four(0x4B, 0x9C, 0x78, 0xD8)
    case 0xB1 => Four(0x63, 0x6C, 0xB1, 0xE1)
    case 0xB4 => Four(0x63, 0x6C, 0xB4, 0xE4)
    case 0xC6 => Four(0x87, 0x8D, 0xB1, 0xC6)
    case 0xC9 => Four(0x87, 0x8D, 0xB4, 0xC9)
    case 0xD2 => Four(0x93, 0x8D, 0xB1, 0xD2)
    case 0xD8 => Four(0x87, 0x9C, 0xB4, 0xD8)
    case 0xE1 => Four(0x93, 0x9C, 0xB1, 0xE1)
    case 0xE4 => Four(0x93, 0x9C, 0xB4, 0xE4)
    case _ => Four(0, 0, 0, 0)
  }

  /** The entries of `lt_replacement_index` that are not zero. */
  function LtReplacementIndex(vector: nat): (c: nat)
    ensures c < 4
  {
    match vector
    case 0x1E | 0x2D | 0x4E | 0x6C | 0x8D | 0x9C => 1
    case 0x36 | 0x39 | 0x72 | 0x78 | 0xB1 | 0xB4 => 2
    case 0xC6 | 0xC9 | 0xD2 | 0xD8 | 0xE1 | 0xE4 => 3
    case _ => 0
  }

  const DEFAULT_REPLACEMENT_VECTOR: nat := 0x1B

  // ---------------------------------------------------------------- what a replacement byte means

  /** The byte that gives the columns their ranks, two bits each, column 0 in the lowest ones. */
  function Encode(ranks: Four<nat>): (v: nat)
  {
    ranks.a + 4 * ranks.b + 16 * ranks.c + 64 * ranks.d
  }

  /** Each of the four ranks occurs once. */
  predicate AllRanks(r: Four<nat>)
  {
    && r.a < 4 && r.b < 4 && r.c < 4 && r.d < 4
    && r.a != r.b && r.a != r.c && r.a != r.d && r.b != r.c && r.b != r.d && r.c != r.d
  }

  /** The rank `x` after the column of rank `pivot` moved to the front. */
  function Later(x: nat, pivot: nat): (r: nat)
  {
    if x == pivot then 0 else if x < pivot then x + 1 else x
  }

  /** The rank `x` after the column of rank `pivot` moved to the back. */
  function Sooner(x: nat, pivot: nat): (r: nat)
  {
    if x == pivot then 3 else if x > pivot then x - 1 else x
  }

  function Front(r: Four<nat>, col: nat): (f: Four<nat>)
    requires col < 4
  {
    var p := r.At(col);
    Four(Later(r.a, p), Later(r.b, p), Later(r.c, p), Later(r.d, p))
  }

  function Back(r: Four<nat>, col: nat): (f: Four<nat>)
    requires col < 4
  {
    var p := r.At(col);
    Four(Sooner(r.a, p), Sooner(r.b, p), Sooner(r.c, p), Sooner(r.d, p))
  }

  /** The ranks a byte holds. */
  function Ranks(vector: nat): (r: Four<nat>)
  {
    Four(vector % 4, vector / 4 % 4, vector / 16 % 4, vector / 64 % 4)
  }

  /** The replacement bytes a row can have. */
  predicate IsVector(vector: nat)
  {
    AllRanks(Ranks(vector)) && vector == Encode(Ranks(vector))
  }

  lemma Decoded(r: Four<nat>)
    requires r.a < 4 && r.b < 4 && r.c < 4 && r.d < 4
    ensures Ranks(Encode(r)) == r
  {
    assert Encode(r) / 4 == r.b + 4 * r.c + 16 * r.d;
    assert Encode(r) / 16 == r.c + 4 * r.d;
    assert Encode(r) / 64 == r.d;
  }

  lemma EncodedIsVector(v: nat, r: Four<nat>)
    requires AllRanks(r) && v == Encode(r)
    ensures IsVector(v) && Ranks(v) == r
  {
    Decoded(r);
  }

  /** A new row ranks its columns 3, 2, 1, 0. */
  lemma DefaultIsVector()
    ensures IsVector(DEFAULT_REPLACEMENT_VECTOR) && Ranks(DEFAULT_REPLACEMENT_VECTOR) == Four(3, 2, 1, 0)
  {
    EncodedIsVector(DEFAULT_REPLACEMENT_VECTOR, Four(3, 2, 1, 0));
  }

  lemma FrontEntryA(r: Four<nat>)
    requires AllRanks(r)
    ensures LtReplacementVector(Encode(r)).a == Encode(Front(r, 0))
  {
  }

  lemma FrontEntryB(r: Four<nat>)
    requires AllRanks(r)
    ensures LtReplacementVector(Encode(r)).b == Encode(Front(r, 1))
  {
  }

  lemma FrontEntryC(r: Four<nat>)
    requires AllRanks(r)
    ensures LtReplacementVector(Encode(r)).c == Encode(Front(r, 2))
  {
  }

  lemma FrontEntryD(r: Four<nat>)
    requires AllRanks(r)
    ensures LtReplacementVector(Encode(r)).d == Encode(Front(r, 3))
  {
  }

  lemma BackEntryA(r: Four<nat>)
    requires AllRanks(r)
    ensures LtReplacementVectorRemove(Encode(r)).a == Encode(Back(r, 0))
  {
  }

  lemma BackEntryB(r: Four<nat>)
    requires AllRanks(r)
    ensures LtReplacementVectorRemove(Encode(r)).b == Encode(Back(r, 1))
  {
  }

  lemma BackEntryC(r: Four<nat>)
    requires AllRanks(r)
    ensures LtReplacementVectorRemove(Encode(r)).c == Encode(Back(r, 2))
  {
  }

  lemma BackEntryD(r: Four<nat>)
    requires AllRanks(r)
    ensures LtReplacementVectorRemove(Encode(r)).d == Encode(Back(r, 3))
  {
  }

  lemma FrontAt(r: Four<nat>, col: nat)
    requires AllRanks(r) && col < 4
    ensures LtReplacementVector(Encode(r)).At(col) == Encode(Front(r, col))
  {
    if col == 0 {
      FrontEntryA(r);
    } else if col == 1 {
      FrontEntryB(r);
    } else if col == 2 {
      FrontEntryC(r);
    } else {
      FrontEntryD(r);
    }
  }

  /** An entry of the insert table makes its column the newest and keeps the order of the others. */
  lemma FrontEntry(vector: nat, col: nat)
    requires IsVector(vector) && col < 4
    ensures var v := LtReplacementVector(vector).At(col); IsVector(v) && Ranks(v) == Front(Ranks(vector), col)
  {
    var r := Ranks(vector);
    FrontAt(r, col);
    FrontMoves(r, col);
    EncodedIsVector(LtReplacementVector(vector).At(col), Front(r, col));
  }

  lemma BackAt(r: Four<nat>, col: nat)
    requires AllRanks(r) && col < 4
    ensures LtReplacementVectorRemove(Encode(r)).At(col) == Encode(Back(r, col))
  {
    if col == 0 {
      BackEntryA(r);
    } else if col == 1 {
      BackEntryB(r);
    } else if col == 2 {
      BackEntryC(r);
    } else {
      BackEntryD(r);
    }
  }

  /** An entry of the remove table makes its column the oldest and keeps the order of the others. */
  lemma BackEntry(vector: nat, col: nat)
    requires IsVector(vector) && col < 4
    ensures var v := LtReplacementVectorRemove(vector).At(col); IsVector(v) && Ranks(v) == Back(Ranks(vector), col)
  {
    var r := Ranks(vector);
    BackAt(r, col);
    BackMoves(r, col);
    EncodedIsVector(LtReplacementVectorRemove(vector).At(col), Back(r, col));
  }

  /** The index table names the oldest column. */
  lemma OldestEntry(vector: nat)
    requires IsVector(vector)
    ensures Ranks(vector).At(LtReplacementIndex(vector)) == 3
  {
    OldestOf(Ranks(vector));
  }

  lemma OldestOf(r: Four<nat>)
    requires AllRanks(r)
    ensures r.At(LtReplacementIndex(Encode(r))) == 3
  {
  }

  // ---------------------------------------------------------------- columns in order of use

  /** The column that has rank `rank`. */
  function Holder(r: Four<nat>, rank: nat): (c: nat)
    ensures c < 4
  {
    if r.a == rank then 0 else if r.b == rank then 1 else if r.c == rank then 2 else 3
  }

  lemma HolderOfRank(r: Four<nat>)
    requires AllRanks(r)
    ensures forall rank: nat :: rank < 4 ==> r.At(Holder(r, rank)) == rank
    ensures forall c: nat :: c < 4 ==> Holder(r, r.At(c)) == c && r.At(c) < 4
  {
  }

  /** Moving a column to the front is one step of move-to-front on the columns. */
  lemma FrontMoves(r: Four<nat>, col: nat)
    requires AllRanks(r) && col < 4
    ensures AllRanks(Front(r, col))
    ensures Holder(Front(r, col), 0) == col
    ensures forall i: nat :: 0 < i <= r.At(col) ==> Holder(Front(r, col), i) == Holder(r, i - 1)
    ensures forall i: nat :: r.At(col) < i < 4 ==> Holder(Front(r, col), i) == Holder(r, i)
  {
  }

  /** Moving a column to the back closes the gap it leaves. */
  lemma BackMoves(r: Four<nat>, col: nat)
    requires AllRanks(r) && col < 4
    ensures AllRanks(Back(r, col))
    ensures Holder(Back(r, col), 3) == col
    ensures forall i: nat :: i < r.At(col) ==> Holder(Back(r, col), i) == Holder(r, i)
    ensures forall i: nat :: r.At(col) <= i < 3 ==> Holder(Back(r, col), i) == Holder(r, i + 1)
  {
  }

  /** The sequence with the element at `i` moved to the front. */
  function Promoted<T>(s: seq<T>, i: nat): (r: seq<T>)
    requires i < |s|
    ensures |r| == |s| && r[0] == s[i]
    ensures forall j :: 0 < j <= i ==> r[j] == s[j - 1]
    ensures forall j :: i < j < |s| ==> r[j] == s[j]
  {
    [s[i]] + s[..i] + s[i + 1..]
  }

  /** The columns from the one used last to the one used longest ago. */
  function Order(vector: nat): (o: seq<nat>)
    ensures |o| == 4
  {
    var r := Ranks(vector);
    [Holder(r, 0), Holder(r, 1), Holder(r, 2), Holder(r, 3)]
  }

  /** All four columns, each once. */
  predicate IsOrder(o: seq<nat>)
  {
    && |o| == 4
    && o[0] < 4 && o[1] < 4 && o[2] < 4 && o[3] < 4
    && o[0] != o[1] && o[0] != o[2] && o[0] != o[3] && o[1] != o[2] && o[1] != o[3] && o[2] != o[3]
  }

  function Rank(vector: nat, col: nat): (i: nat)
    requires col < 4
  {
    Ranks(vector).At(col)
  }

  lemma OrderOk(vector: nat)
    requires IsVector(vector)
    ensures IsOrder(Order(vector))
    ensures forall col: nat :: col < 4 ==> Rank(vector, col) < 4 && Order(vector)[Rank(vector, col)] == col
  {
    HolderOfRank(Ranks(vector));
  }

  /** The insert table moves its column to the front of the order. */
  lemma FrontOrder(vector: nat, col: nat)
    requires IsVector(vector) && col < 4
    ensures var v := LtReplacementVector(vector).At(col);
            && IsVector(v)
            && Rank(vector, col) < 4
            && Order(v) == Promoted(Order(vector), Rank(vector, col))
  {
    var r := Ranks(vector);
    FrontEntry(vector, col);
    FrontMoves(r, col);
    HolderOfRank(r);
    ListedFront(Order(vector), Order(LtReplacementVector(vector).At(col)), r, Front(r, col), col);
  }

  /** Pointwise to sequence. */
  lemma ListedFront(o: seq<nat>, o': seq<nat>, r: Four<nat>, r': Four<nat>, col: nat)
    requires AllRanks(r) && col < 4 && r.At(col) < 4 && Holder(r, r.At(col)) == col
    requires o == [Holder(r, 0), Holder(r, 1), Holder(r, 2), Holder(r, 3)]
    requires o' == [Holder(r', 0), Holder(r', 1), Holder(r', 2), Holder(r', 3)]
    requires Holder(r', 0) == col
    requires forall i: nat :: 0 < i <= r.At(col) ==> Holder(r', i) == Holder(r, i - 1)
    requires forall i: nat :: r.At(col) < i < 4 ==> Holder(r', i) == Holder(r, i)
    ensures o' == Promoted(o, r.At(col))
  {
  }

  /** The remove table moves its column to the end of the order. */
  lemma BackOrder(vector: nat, col: nat)
    requires IsVector(vector) && col < 4
    ensures var v := LtReplacementVectorRemove(vector).At(col);
            && IsVector(v)
            && Rank(vector, col) < 4
            && Order(v) == Without(Order(vector), Rank(vector, col)) + [col]
  {
    var r := Ranks(vector);
    BackEntry(vector, col);
    BackMoves(r, col);
    HolderOfRank(r);
    ListedBack(Order(vector), Order(LtReplacementVectorRemove(vector).At(col)), r, Back(r, col), col);
  }

  /** Pointwise to sequence. */
  lemma ListedBack(o: seq<nat>, o': seq<nat>, r: Four<nat>, r': Four<nat>, col: nat)
    requires AllRanks(r) && col < 4 && r.At(col) < 4 && Holder(r, r.At(col)) == col
    requires o == [Holder(r, 0), Holder(r, 1), Holder(r, 2), Holder(r, 3)]
    requires o' == [Holder(r', 0), Holder(r', 1), Holder(r', 2), Holder(r', 3)]
    requires Holder(r', 3) == col
    requires forall i: nat :: i < r.At(col) ==> Holder(r', i) == Holder(r, i)
    requires forall i: nat :: r.At(col) <= i < 3 ==> Holder(r', i) == Holder(r, i + 1)
    ensures o' == Without(o, r.At(col)) + [col]
  {
  }

  /** The index table names the last column of the order. */
  lemma OldestOrder(vector: nat)
    requires IsVector(vector)
    ensures LtReplacementIndex(vector) == Order(vector)[3]
    ensures Rank(vector, LtReplacementIndex(vector)) == 3
  {
    OldestEntry(vector);
    HolderOfRank(Ranks(vector));
  }

  // ---------------------------------------------------------------- free flags

  /** One bit of a row's free flag for each column: set when the column holds an item. */
  function LtPowOfTwo(col: nat): (b: bv8)
    requires col < 8
  {
    if col == 0 then 1 else if col == 1 then 2 else if col == 2 then 4 else if col == 3 then 8
    else if col == 4 then 16 else if col == 5 then 32 else if col == 6 then 64 else 128
  }

  const COL_FULL: bv8 := 0x0F

  predicate Occupied(flags: bv8, col: nat)
    requires col < 4
  {
    flags & LtPowOfTwo(col) != 0
  }

  /** Index of the first free column, for each value of the free flag but the full one. */
  function LtFreeFlag(flags: bv8): (c: nat)
    ensures c < 4
  {
    match flags
    case 1 | 5 | 9 | 13 => 1
    case 3 | 11 => 2
    case 7 => 3
    case _ => 0
  }

  function Count(flags: bv8): (n: nat)
    ensures n <= 4
  {
    (if Occupied(flags, 0) then 1 else 0) + (if Occupied(flags, 1) then 1 else 0)
    + (if Occupied(flags, 2) then 1 else 0) + (if Occupied(flags, 3) then 1 else 0)
  }

  /** Unless every column is taken, the table names the first free one, and adding its power of two sets just its bit. */
  lemma FreeEntry(flags: bv8)
    requires flags < COL_FULL
    ensures var c := LtFreeFlag(flags);
            && !Occupied(flags, c)
            && (forall i: nat :: i < c ==> Occupied(flags, i))
            && flags + LtPowOfTwo(c) <= COL_FULL
            && Count(flags + LtPowOfTwo(c)) == Count(flags) + 1
            && forall i: nat :: i < 4 ==> Occupied(flags + LtPowOfTwo(c), i) == (i == c || Occupied(flags, i))
  {
  }

  lemma FullRow(flags: bv8)
    requires flags <= COL_FULL
    ensures flags == COL_FULL <==> Count(flags) == 4
  {
  }

  function WithoutFlag(flags: bv8, col: nat): (f: bv8)
    requires col < 4
  {
    flags & !LtPowOfTwo(col)
  }

  /** Clearing the bit of a column. */
  lemma Cleared(flags: bv8, col: nat)
    requires flags <= COL_FULL && col < 4
    ensures WithoutFlag(flags, col) <= COL_FULL
    ensures forall i: nat :: i < 4 ==> Occupied(WithoutFlag(flags, col), i) == (i != col && Occupied(flags, i))
    ensures Occupied(flags, col) ==> Count(WithoutFlag(flags, col)) == Count(flags) - 1
  {
    forall i: nat | i < 4
      ensures Occupied(WithoutFlag(flags, col), i) == (i != col && Occupied(flags, i))
    {
      var bit, keep := LtPowOfTwo(i), !LtPowOfTwo(col);
      assert WithoutFlag(flags, col) & bit == flags & (keep & bit);
      assert keep & bit == if i == col then 0 else bit;
    }
  }
}
