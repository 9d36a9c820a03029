/** `CardMatrix`, the card encoding of the practical scheme: 52 rows, one per
    card position, each holding its card in one column; every entry is then
    masked by a random multiple of the modulus `Zprime`. */
module Cards {
  import opened Arith
  import opened Permutation

  const DeckSize := 52

  /** The cards `1 .. 52` in order. */
  function Deck(): (d: seq<int>)
    ensures |d| == DeckSize && forall i :: 0 <= i < DeckSize ==> d[i] == i + 1
  {
    seq(DeckSize, i => i + 1)
  }

  /** `RandomPermutation(52, cards)` on the deck, for the given draws: each
      card exactly once. */
  function Shuffled(draws: seq<int>): (perm: seq<int>)
    requires DrawsInRange(DeckSize, draws)
    ensures |perm| == DeckSize && multiset(perm) == multiset(Deck())
    ensures forall i :: 0 <= i < DeckSize ==> 1 <= perm[i] <= DeckSize
  {
    var perm := ShuffleFrom(Deck(), DeckSize, 0, draws);
    forall i | 0 <= i < DeckSize
      ensures 1 <= perm[i] <= DeckSize
    {
      InDeck(perm[i]);
    }
    perm
  }

  datatype CardMatrix = CardMatrix(zprime: int, matrix: seq<seq<int>>)

  /** One mask multiplier per entry of `matrix`, each a draw below `bound`. */
  predicate MasksFor(masks: seq<seq<int>>, matrix: seq<seq<int>>, bound: int) {
    |masks| == |matrix|
    && (forall i :: 0 <= i < |masks| ==> |masks[i]| == |matrix[i]|)
    && (forall i, j :: 0 <= i < |masks| && 0 <= j < |masks[i]| ==> NextInRange(masks[i][j], bound))
  }

  /** The unmasked matrix: row `i` holds `cards[i]` in column `columns[i]`
      and 0 elsewhere. */
  function Plain(cards: seq<int>, columns: seq<int>, i: int, j: int): int
    requires 0 <= i < |cards| && i < |columns|
  {
    if j == columns[i] then cards[i] else 0
  }

  /** The matrix shape: 52 rows of 52 entries each. */
  predicate Square(matrix: seq<seq<int>>) {
    |matrix| == DeckSize && forall i :: 0 <= i < DeckSize ==> |matrix[i]| == DeckSize
  }

  /** The modulus fix-up of the constructor: anything below 53 becomes 53. */
  function FloorModulus(prime: int): (z: int)
    ensures z >= 53 && (prime >= 53 ==> z == prime) && (prime < 53 ==> z == 53)
  {
    if prime < 53 then 53 else prime
  }

  /** The card columns and the masks of `buildMatrix`: one column per row
      and one mask multiplier per entry, each drawn below `zp`. */
  predicate BuildDraws(zp: int, columns: seq<int>, masks: seq<seq<int>>) {
    |columns| == DeckSize && (forall i :: 0 <= i < DeckSize ==> 0 <= columns[i] < DeckSize)
    && Square(masks)
    && forall i, j :: 0 <= i < DeckSize && 0 <= j < DeckSize ==> NextInRange(masks[i][j], zp)
  }

  /** `buildMatrix` after the shuffle: card `perm[i]` goes to column
      `columns[i]` of row `i`, and every entry gets `zp * masks[i][j]` added. */
  function BuildMatrix(zp: int, perm: seq<int>, columns: seq<int>, masks: seq<seq<int>>): (matrix: seq<seq<int>>)
    requires |perm| == DeckSize && BuildDraws(zp, columns, masks)
    ensures Square(matrix)
  {
    seq(DeckSize, i requires 0 <= i < DeckSize =>
      seq(DeckSize, j requires 0 <= j < DeckSize => Plain(perm, columns, i, j) + zp * masks[i][j]))
  }

  /** `new CardMatrix(prime)` with its random choices made explicit: the
      shuffle draws, the column of each row's card, and the masks. */
  function NewCardMatrix(prime: int, draws: seq<int>, columns: seq<int>, masks: seq<seq<int>>): (cm: CardMatrix)
    requires DrawsInRange(DeckSize, draws) && BuildDraws(FloorModulus(prime), columns, masks)
    ensures cm.zprime == FloorModulus(prime) && Square(cm.matrix)
  {
    var zp := FloorModulus(prime);
    CardMatrix(zp, BuildMatrix(zp, Shuffled(draws), columns, masks))
  }

  /** Column `k` holds the first nonzero residue of `row` from column `j` on. */
  predicate FirstNonzeroAt(row: seq<int>, zp: int, j: int, k: int)
    requires zp != 0
  {
    0 <= j <= k < |row| && TMod(row[k], zp) != 0 && forall l :: j <= l < k ==> TMod(row[l], zp) == 0
  }

  /** The scan of `GetCard` from column `j` on: the first nonzero residue
      modulo `zp`, or 0 when every residue is 0. */
  function FirstResidue(row: seq<int>, zp: int, j: nat): (c: int)
    requires zp != 0
    ensures c == 0 <==> forall k :: j <= k < |row| ==> TMod(row[k], zp) == 0
    ensures c != 0 ==> exists k :: FirstNonzeroAt(row, zp, j, k) && TMod(row[k], zp) == c
    decreases |row| - j
  {
    if j >= |row| then 0
    else if TMod(row[j], zp) != 0 then TMod(row[j], zp)
    else FirstResidue(row, zp, j + 1)
  }

  /** `GetCard(index)`: the first nonzero residue of row `index`, or 0 when
      every residue of the row is 0. */
  function GetCard(cm: CardMatrix, index: int): (c: int)
    requires cm.zprime != 0 && 0 <= index < |cm.matrix|
    ensures c == 0 <==> forall k :: 0 <= k < |cm.matrix[index]| ==> TMod(cm.matrix[index][k], cm.zprime) == 0
    ensures c != 0 ==> exists k :: FirstNonzeroAt(cm.matrix[index], cm.zprime, 0, k) && TMod(cm.matrix[index][k], cm.zprime) == c
  {
    FirstResidue(cm.matrix[index], cm.zprime, 0)
  }

  /** The cards of all 52 rows, as `GetCard` reads them. */
  function Dealt(cm: CardMatrix): (cards: seq<int>)
    requires cm.zprime != 0 && Square(cm.matrix)
    ensures |cards| == DeckSize && forall i :: 0 <= i < DeckSize ==> cards[i] == GetCard(cm, i)
  {
    seq(DeckSize, i requires 0 <= i < DeckSize => GetCard(cm, i))
  }

  /** `Transform(newPrime)`: reduce every entry modulo the old modulus, then
      mask it with a multiple of the new one. A negative `newPrime` makes
      `rand.Next` throw, and the old modulus must be nonzero for `%=`. */
  function Transform(cm: CardMatrix, newPrime: int, masks: seq<seq<int>>): (t: CardMatrix)
    requires cm.zprime != 0 && newPrime >= 0 && MasksFor(masks, cm.matrix, newPrime)
    ensures t.zprime == newPrime && |t.matrix| == |cm.matrix|
    ensures forall i :: 0 <= i < |t.matrix| ==> |t.matrix[i]| == |cm.matrix[i]|
  {
    CardMatrix(newPrime, seq(|cm.matrix|, i requires 0 <= i < |cm.matrix| =>
      seq(|cm.matrix[i]|, j requires 0 <= j < |cm.matrix[i]| =>
        TMod(cm.matrix[i][j], cm.zprime) + newPrime * masks[i][j])))
  }

  /** The loop of `operator ==` from row `i` on. */
  function SameFrom(a: CardMatrix, b: CardMatrix, i: nat): (same: bool)
    requires a.zprime != 0 && b.zprime != 0 && |b.matrix| >= |a.matrix|
    ensures same <==> forall k :: i <= k < |a.matrix| ==> GetCard(a, k) == GetCard(b, k)
    decreases |a.matrix| - i
  {
    if i >= |a.matrix| then true
    else if GetCard(a, i) != GetCard(b, i) then false
    else SameFrom(a, b, i + 1)
  }

  /** `a == b`: the rows of `a` hold the same cards in `b`. Rows of `b`
      beyond those of `a` are not looked at. */
  function Same(a: CardMatrix, b: CardMatrix): (same: bool)
    requires a.zprime != 0 && b.zprime != 0 && |b.matrix| >= |a.matrix|
    ensures same <==> forall k :: 0 <= k < |a.matrix| ==> GetCard(a, k) == GetCard(b, k)
  {
    SameFrom(a, b, 0)
  }

  // ---------------------------------------------------------------------
  // What the encoding guarantees

  /** `cm` encodes the cards `cards` placed at the columns `columns`: a
      52 by 52 matrix of nonnegative entries whose residues modulo a modulus
      above every card are the unmasked matrix. */
  ghost predicate Encodes(cm: CardMatrix, cards: seq<int>, columns: seq<int>) {
    Square(cm.matrix) && |cards| == DeckSize && |columns| == DeckSize && cm.zprime > DeckSize
    && (forall i :: 0 <= i < DeckSize ==> 1 <= cards[i] <= DeckSize && 0 <= columns[i] < DeckSize)
    && (forall i, j :: 0 <= i < DeckSize && 0 <= j < DeckSize ==>
          cm.matrix[i][j] >= 0 && cm.matrix[i][j] % cm.zprime == Plain(cards, columns, i, j))
  }

  /** A masked entry reduces to its plain value. */
  lemma MaskedResidue(v: int, zp: int, k: int)
    requires 0 <= v < zp && k >= 0
    ensures v + zp * k >= 0 && (v + zp * k) % zp == v && TMod(v + zp * k, zp) == v
  {
    assert zp * k >= 0;
    ModUnique(v + zp * k, zp, k, v);
    TModNonneg(v + zp * k, zp);
  }

  lemma InDeck(x: int)
    requires x in multiset(Deck())
    ensures 1 <= x <= DeckSize
  {
    var k :| 0 <= k < DeckSize && Deck()[k] == x;
  }

  lemma BuildEntry(zp: int, perm: seq<int>, columns: seq<int>, masks: seq<seq<int>>, i: int, j: int)
    requires |perm| == DeckSize && BuildDraws(zp, columns, masks) && zp > DeckSize
    requires 0 <= i < DeckSize && 0 <= j < DeckSize && 1 <= perm[i] <= DeckSize
    ensures var m := BuildMatrix(zp, perm, columns, masks);
      m[i][j] >= 0 && m[i][j] % zp == Plain(perm, columns, i, j)
  {
    var v := Plain(perm, columns, i, j);
    assert BuildMatrix(zp, perm, columns, masks)[i][j] == v + zp * masks[i][j];
    MaskedResidue(v, zp, masks[i][j]);
  }

  /** A matrix built from cards in `1 .. 52` under a modulus above 52
      encodes those cards at the chosen columns. */
  lemma BuildMatrixEncodes(zp: int, perm: seq<int>, columns: seq<int>, masks: seq<seq<int>>)
    requires |perm| == DeckSize && BuildDraws(zp, columns, masks) && zp > DeckSize
    requires forall i :: 0 <= i < DeckSize ==> 1 <= perm[i] <= DeckSize
    ensures Encodes(CardMatrix(zp, BuildMatrix(zp, perm, columns, masks)), perm, columns)
  {
    var m := BuildMatrix(zp, perm, columns, masks);
    forall i, j | 0 <= i < DeckSize && 0 <= j < DeckSize
      ensures m[i][j] >= 0 && m[i][j] % zp == Plain(perm, columns, i, j)
    {
      BuildEntry(zp, perm, columns, masks, i, j);
    }
  }

  /** A row whose only nonzero residue is `v`, in column `c`, reads as `v`. */
  lemma {:induction false} SingleResidue(row: seq<int>, zp: int, c: int, v: int, j: nat)
    requires zp != 0 && j <= c < |row| && TMod(row[c], zp) == v && v != 0
    requires forall k :: 0 <= k < |row| && k != c ==> TMod(row[k], zp) == 0
    ensures FirstResidue(row, zp, j) == v
    decreases c - j
  {
    if j < c {
      SingleResidue(row, zp, c, v, j + 1);
    }
  }

  /** In an encoding matrix the only nonzero residue of row `i` is the one
      in column `columns[i]`, and `GetCard` returns the row's card. */
  lemma GetCardOfEncoding(cm: CardMatrix, cards: seq<int>, columns: seq<int>, i: int)
    requires Encodes(cm, cards, columns) && 0 <= i < DeckSize
    ensures forall j :: 0 <= j < DeckSize ==> (TMod(cm.matrix[i][j], cm.zprime) != 0 <==> j == columns[i])
    ensures GetCard(cm, i) == cards[i]
  {
    var row, zp := cm.matrix[i], cm.zprime;
    forall j | 0 <= j < DeckSize
      ensures TMod(row[j], zp) == Plain(cards, columns, i, j)
    {
      TModNonneg(row[j], zp);
    }
    SingleResidue(row, zp, columns[i], cards[i], 0);
  }

  /** A new matrix encodes the shuffled deck under a modulus of at least 53. */
  lemma NewEncodesShuffle(prime: int, draws: seq<int>, columns: seq<int>, masks: seq<seq<int>>)
    requires DrawsInRange(DeckSize, draws) && BuildDraws(FloorModulus(prime), columns, masks)
    ensures NewCardMatrix(prime, draws, columns, masks).zprime >= 53
    ensures Encodes(NewCardMatrix(prime, draws, columns, masks), Shuffled(draws), columns)
  {
    BuildMatrixEncodes(FloorModulus(prime), Shuffled(draws), columns, masks);
  }

  /** After construction, `GetCard(i)` is the `i`-th card of the shuffle,
      so the rows hold each of the cards `1 .. 52` exactly once. */
  lemma NewDealsShuffle(prime: int, draws: seq<int>, columns: seq<int>, masks: seq<seq<int>>)
    requires DrawsInRange(DeckSize, draws) && BuildDraws(FloorModulus(prime), columns, masks)
    ensures Dealt(NewCardMatrix(prime, draws, columns, masks)) == Shuffled(draws)
    ensures multiset(Dealt(NewCardMatrix(prime, draws, columns, masks))) == multiset(Deck())
  {
    NewEncodesShuffle(prime, draws, columns, masks);
    DealtOfEncoding(NewCardMatrix(prime, draws, columns, masks), Shuffled(draws), columns);
  }

  /** Reading every row of an encoding matrix gives back its cards. */
  lemma DealtOfEncoding(cm: CardMatrix, cards: seq<int>, columns: seq<int>)
    requires Encodes(cm, cards, columns)
    ensures Dealt(cm) == cards
  {
    forall i | 0 <= i < DeckSize
      ensures Dealt(cm)[i] == cards[i]
    {
      GetCardOfEncoding(cm, cards, columns, i);
    }
  }

  /** Transforming to a modulus of at least 53 keeps the encoding: the same
      cards in the same columns. */
  lemma TransformEncodes(cm: CardMatrix, cards: seq<int>, columns: seq<int>, newPrime: int, masks: seq<seq<int>>)
    requires Encodes(cm, cards, columns) && newPrime > DeckSize && MasksFor(masks, cm.matrix, newPrime)
    ensures Encodes(Transform(cm, newPrime, masks), cards, columns)
  {
    var t := Transform(cm, newPrime, masks);
    forall i, j | 0 <= i < DeckSize && 0 <= j < DeckSize
      ensures t.matrix[i][j] >= 0 && t.matrix[i][j] % newPrime == Plain(cards, columns, i, j)
    {
      TModNonneg(cm.matrix[i][j], cm.zprime);
      MaskedResidue(Plain(cards, columns, i, j), newPrime, masks[i][j]);
    }
  }

  /** Transforming to a modulus of at least 53 leaves every card in place,
      so the transformed matrix is `==` to the original. */
  lemma TransformKeepsCards(cm: CardMatrix, cards: seq<int>, columns: seq<int>, newPrime: int, masks: seq<seq<int>>)
    requires Encodes(cm, cards, columns) && newPrime > DeckSize && MasksFor(masks, cm.matrix, newPrime)
    ensures forall i :: 0 <= i < DeckSize ==> GetCard(Transform(cm, newPrime, masks), i) == cards[i]
    ensures Same(cm, Transform(cm, newPrime, masks))
  {
    var t := Transform(cm, newPrime, masks);
    TransformEncodes(cm, cards, columns, newPrime, masks);
    forall i | 0 <= i < DeckSize
      ensures GetCard(t, i) == cards[i] && GetCard(cm, i) == cards[i]
    {
      GetCardOfEncoding(t, cards, columns, i);
      GetCardOfEncoding(cm, cards, columns, i);
    }
  }

  /** `Transform` does not floor its modulus: with a full deck and a new
      modulus `p` in `[1, 52]`, the row holding card `p` reads back as 0. */
  lemma SmallModulusLosesCard(cm: CardMatrix, cards: seq<int>, columns: seq<int>, newPrime: int, masks: seq<seq<int>>)
    requires Encodes(cm, cards, columns) && multiset(cards) == multiset(Deck())
    requires 1 <= newPrime <= DeckSize && MasksFor(masks, cm.matrix, newPrime)
    ensures exists i :: 0 <= i < DeckSize && cards[i] == newPrime && GetCard(Transform(cm, newPrime, masks), i) == 0
    ensures !Same(cm, Transform(cm, newPrime, masks))
  {
    var t := Transform(cm, newPrime, masks);
    assert Deck()[newPrime - 1] == newPrime;
    assert newPrime in multiset(cards);
    var i :| 0 <= i < DeckSize && cards[i] == newPrime;
    GetCardOfEncoding(cm, cards, columns, i);
    forall j | 0 <= j < DeckSize
      ensures TMod(t.matrix[i][j], newPrime) == 0
    {
      LostEntry(cm.matrix[i][j], cm.zprime, Plain(cards, columns, i, j), newPrime, masks[i][j]);
    }
    assert cards[i] == newPrime && GetCard(t, i) == 0;
  }

  /** An entry whose old residue is 0 or the new modulus itself is a multiple
      of the new modulus after `Transform`. */
  lemma LostEntry(e: int, zp: int, v: int, p: int, k: int)
    requires zp > 0 && e >= 0 && e % zp == v && (v == 0 || v == p) && p >= 1 && k >= 0
    ensures TMod(TMod(e, zp) + p * k, p) == 0
  {
    TModNonneg(e, zp);
    var c := if v == 0 then k else k + 1;
    assert v + p * k == p * c;
    assert p * c >= 0;
    ModUnique(p * c, p, c, 0);
    TModNonneg(p * c, p);
  }

  /** For a matrix holding the full deck, a transform to a positive modulus
      keeps it `==` exactly when the modulus is at least 53. */
  lemma TransformSameIff(cm: CardMatrix, cards: seq<int>, columns: seq<int>, newPrime: int, masks: seq<seq<int>>)
    requires Encodes(cm, cards, columns) && multiset(cards) == multiset(Deck())
    requires newPrime >= 1 && MasksFor(masks, cm.matrix, newPrime)
    ensures Same(cm, Transform(cm, newPrime, masks)) <==> newPrime >= 53
  {
    if newPrime >= 53 {
      TransformKeepsCards(cm, cards, columns, newPrime, masks);
    } else {
      SmallModulusLosesCard(cm, cards, columns, newPrime, masks);
    }
  }
}
