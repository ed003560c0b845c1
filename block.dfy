/** Tile ranks (src/block.rs): the eleven values 2, 4, ..., 2048. */
module Block {
  import opened Wrappers

  /** The rank of a tile, in the declaration order of the source enum. */
  datatype BlockSize = B2 | B4 | B8 | B16 | B32 | B64 | B128 | B256 | B512 | B1024 | B2048

  /** Position of a rank in declaration order: 0 for B2 up to 10 for B2048. */
  function Rank(b: BlockSize): (k: nat)
    ensures k <= 10
  {
    match b
    case B2 => 0
    case B4 => 1
    case B8 => 2
    case B16 => 3
    case B32 => 4
    case B64 => 5
    case B128 => 6
    case B256 => 7
    case B512 => 8
    case B1024 => 9
    case B2048 => 10
  }

  /** The rank at a given position of the declaration order. */
  function FromRank(k: nat): (b: BlockSize)
    requires k <= 10
    ensures Rank(b) == k
  {
    if k == 0 then B2 else if k == 1 then B4 else if k == 2 then B8
    else if k == 3 then B16 else if k == 4 then B32 else if k == 5 then B64
    else if k == 6 then B128 else if k == 7 then B256 else if k == 8 then B512
    else if k == 9 then B1024 else B2048
  }

  /** Declaration order identifies the rank: FromRank undoes Rank. */
  lemma FromRankOfRank(b: BlockSize)
    ensures FromRank(Rank(b)) == b
  {
    match b
    case B2 =>
    case B4 =>
    case B8 =>
    case B16 =>
    case B32 =>
    case B64 =>
    case B128 =>
    case B256 =>
    case B512 =>
    case B1024 =>
    case B2048 =>
  }

  /** The display label of a rank (to_string). */
  function Label(b: BlockSize): (s: string)
    ensures 1 <= |s| <= 4
    ensures forall i | 0 <= i < |s| :: '0' <= s[i] <= '9'
  {
    match b
    case B2 => "2"
    case B4 => "4"
    case B8 => "8"
    case B16 => "16"
    case B32 => "32"
    case B64 => "64"
    case B128 => "128"
    case B256 => "256"
    case B512 => "512"
    case B1024 => "1024"
    case B2048 => "2048"
  }

  /** The successor rank (next); there is none after B2048. */
  function Next(b: BlockSize): (r: Option<BlockSize>)
    ensures r.None? <==> b == B2048
    ensures r.Some? ==> Rank(r.value) == Rank(b) + 1
  {
    match b
    case B2 => Some(B4)
    case B4 => Some(B8)
    case B8 => Some(B16)
    case B16 => Some(B32)
    case B32 => Some(B64)
    case B64 => Some(B128)
    case B128 => Some(B256)
    case B256 => Some(B512)
    case B512 => Some(B1024)
    case B1024 => Some(B2048)
    case B2048 => None
  }

  /** Two ranks with the same successor are the same rank. */
  lemma NextInjective(a: BlockSize, b: BlockSize)
    requires Next(a).Some? && Next(a) == Next(b)
    ensures a == b
  {
    FromRankOfRank(a);
    FromRankOfRank(b);
  }

  /** n applications of Next, stopping at the first missing successor. */
  function Iterate(b: BlockSize, n: nat): (r: Option<BlockSize>)
    ensures r.Some? <==> Rank(b) + n <= 10
    ensures r.Some? ==> Rank(r.value) == Rank(b) + n
    decreases n
  {
    if n == 0 then Some(b)
    else match Next(b)
      case None => None
      case Some(c) => Iterate(c, n - 1)
  }

  /** From B2, k applications of Next reach the rank at position k. */
  lemma {:induction false} IterateFromSmallest(k: nat)
    requires k <= 10
    ensures Iterate(B2, k) == Some(FromRank(k))
  {
    if k > 0 {
      IterateFromSmallest(k - 1);
      IterateOnce(B2, k - 1);
      FromRankOfRank(Next(FromRank(k - 1)).value);
    }
  }

  /** Iterating n + 1 times is iterating n times and then taking the successor. */
  lemma {:induction false} IterateOnce(b: BlockSize, n: nat)
    ensures Iterate(b, n + 1) == match Iterate(b, n) case None => None case Some(c) => Next(c)
    decreases n
  {
    if n > 0 {
      match Next(b)
      case None =>
      case Some(c) => IterateOnce(c, n - 1);
    }
  }

  /** Ten successor steps lead from B2 to B2048. */
  lemma TenStepsToLargest()
    ensures Iterate(B2, 10) == Some(B2048)
  {
    IterateFromSmallest(10);
  }

  /** Every rank is reached from B2, after as many steps as its position. */
  lemma EveryRankReachable(b: BlockSize)
    ensures Iterate(B2, Rank(b)) == Some(b)
  {
    IterateFromSmallest(Rank(b));
    FromRankOfRank(b);
  }

  /** Distinct ranks have distinct labels. */
  lemma LabelInjective(a: BlockSize, b: BlockSize)
    requires Label(a) == Label(b)
    ensures a == b
  {
    FromRankOfRank(a);
    FromRankOfRank(b);
  }

  // Decimal text, used to state what the labels mean.

  /** The digit character of a value below ten. */
  function DigitChar(n: nat): (c: char)
    requires n < 10
    ensures '0' <= c <= '9'
  {
    ('0' as int + n) as char
  }

  /** The value of a digit character. */
  function DigitValue(c: char): (n: nat)
    requires '0' <= c <= '9'
    ensures n < 10 && DigitChar(n) == c
  {
    (c as int - '0' as int) as nat
  }

  /** The value of a string of digits, most significant first. */
  function DecimalValue(s: string): nat
    requires forall i | 0 <= i < |s| :: '0' <= s[i] <= '9'
  {
    if s == [] then 0 else DecimalValue(s[..|s| - 1]) * 10 + DigitValue(s[|s| - 1])
  }

  /** The decimal text of a natural number, without leading zeros. */
  function DecimalText(n: nat): (s: string)
    ensures |s| >= 1 && forall i | 0 <= i < |s| :: '0' <= s[i] <= '9'
  {
    if n < 10 then [DigitChar(n)] else DecimalText(n / 10) + [DigitChar(n % 10)]
  }

  /** Reading back the decimal text of n gives n. */
  lemma {:induction false} DecimalRoundTrip(n: nat)
    ensures DecimalValue(DecimalText(n)) == n
  {
    var s := DecimalText(n);
    if n >= 10 {
      DecimalRoundTrip(n / 10);
      assert s[..|s| - 1] == DecimalText(n / 10);
      assert DigitValue(s[|s| - 1]) == n % 10;
      calc {
        DecimalValue(s);
        DecimalValue(DecimalText(n / 10)) * 10 + n % 10;
        (n / 10) * 10 + n % 10;
      }
    } else {
      assert DigitValue(s[0]) == n;
    }
  }

  function Pow2(n: nat): nat
  {
    if n == 0 then 1 else 2 * Pow2(n - 1)
  }

  /** The magnitude a tile shows: the number its label spells. */
  function Magnitude(b: BlockSize): nat
  {
    DecimalValue(Label(b))
  }

  // The decimal texts of 2^1 .. 2^11, in groups the solver evaluates quickly.

  lemma PowerTextsTo16()
    ensures DecimalText(Pow2(1)) == "2" && DecimalText(Pow2(2)) == "4"
    ensures DecimalText(Pow2(3)) == "8" && DecimalText(Pow2(4)) == "16"
  {
  }

  lemma PowerTextsTo128()
    ensures DecimalText(Pow2(5)) == "32" && DecimalText(Pow2(6)) == "64"
    ensures DecimalText(Pow2(7)) == "128"
  {
    assert Pow2(5) == 32 && Pow2(6) == 64 && Pow2(7) == 128;
    assert DecimalText(12) == "12";
  }

  lemma PowerTextsTo512()
    ensures DecimalText(Pow2(8)) == "256" && DecimalText(Pow2(9)) == "512"
  {
    assert Pow2(8) == 256 && Pow2(9) == 512;
    assert DecimalText(25) == "25";
    assert DecimalText(51) == "51";
  }

  lemma PowerTextsTo2048()
    ensures DecimalText(Pow2(10)) == "1024" && DecimalText(Pow2(11)) == "2048"
  {
    assert Pow2(10) == 1024 && Pow2(11) == 2048;
    assert DecimalText(10) == "10";
    assert DecimalText(102) == "102";
    assert DecimalText(20) == "20";
    assert DecimalText(204) == "204";
  }

  /** The label of the rank at position k is the decimal text of 2^(k+1). */
  lemma LabelIsPowerOfTwo(b: BlockSize)
    ensures Label(b) == DecimalText(Pow2(Rank(b) + 1))
  {
    PowerTextsTo16();
    PowerTextsTo128();
    PowerTextsTo512();
    PowerTextsTo2048();
  }

  /** The magnitude of the rank at position k is 2^(k+1). */
  lemma MagnitudeIsPowerOfTwo(b: BlockSize)
    ensures Magnitude(b) == Pow2(Rank(b) + 1)
  {
    LabelIsPowerOfTwo(b);
    DecimalRoundTrip(Pow2(Rank(b) + 1));
  }

  /** The successor of a rank shows twice its magnitude. */
  lemma NextDoubles(b: BlockSize)
    requires Next(b).Some?
    ensures Magnitude(Next(b).value) == 2 * Magnitude(b)
  {
    MagnitudeIsPowerOfTwo(b);
    MagnitudeIsPowerOfTwo(Next(b).value);
  }
}
