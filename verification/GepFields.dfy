/** Fields of structs in arrays: the test that tells two of them apart wherever the
    structs are. */
module GepFields {
  import opened Words

  /** Byte `i` of the field at `off1` is byte `j` of the field at `off2` of a struct
      `k` structs on. */
  predicate SameFieldByte(structSize: nat, off1: nat, i: nat, off2: nat, j: nat, k: int) {
    off1 + i == k * structSize + off2 + j
  }

  ghost predicate ApartInEveryCopy(structSize: nat, off1: nat, size1: nat, off2: nat, size2: nat) {
    forall i: nat, j: nat, k: int :: i < size1 && j < size2 ==> !SameFieldByte(structSize, off1, i, off2, j, k)
  }

  predicate EltsDontOverlap(structSize: nat, off1: nat, size1: nat, off2: nat, size2: nat) {
    off1 < off2 && (off1 + size1) % WORD <= off2 &&
    ((off2 + size2) % WORD <= structSize || ((off2 + size2) % WORD - structSize) <= off1)
  }

  lemma {:induction false} EltsOneWay(structSize: nat, off1: nat, size1: nat, off2: nat, size2: nat, i: nat, j: nat,
                                      k: int)
    requires off1 < off2 < structSize && off1 + size1 <= off2 && off2 + size2 - structSize <= off1
    requires i < size1 && j < size2
    ensures !SameFieldByte(structSize, off1, i, off2, j, k)
  {
    assert (-k) * structSize == -(k * structSize);
    if k >= 0 {
      ProductAtLeastZero(k, structSize);
    } else {
      MultipleAtLeast(structSize, -k);
    }
  }

  lemma {:induction false} ApartSymmetric(structSize: nat, off1: nat, size1: nat, off2: nat, size2: nat)
    requires ApartInEveryCopy(structSize, off1, size1, off2, size2)
    ensures ApartInEveryCopy(structSize, off2, size2, off1, size1)
  {
    forall i: nat, j: nat, k: int | i < size2 && j < size1
      ensures !SameFieldByte(structSize, off2, i, off1, j, k)
    {
      assert (-k) * structSize == -(k * structSize);
      assert !SameFieldByte(structSize, off1, j, off2, i, -k);
    }
  }

  lemma {:induction false} EltsApart(structSize: nat, off1: nat, size1: nat, off2: nat, size2: nat)
    requires off1 < structSize && off2 < structSize && off1 + size1 < WORD && off2 + size2 < WORD
    requires EltsDontOverlap(structSize, off1, size1, off2, size2)
    ensures ApartInEveryCopy(structSize, off1, size1, off2, size2)
  {
    OwnResidue(WORD, off1 + size1);
    OwnResidue(WORD, off2 + size2);
    forall i: nat, j: nat, k: int | i < size1 && j < size2
      ensures !SameFieldByte(structSize, off1, i, off2, j, k)
    {
      EltsOneWay(structSize, off1, size1, off2, size2, i, j, k);
    }
  }

  /** The first field before the second, and yet the test fails: they meet in the
      same struct or in the one before. */
  lemma {:induction false} EltsMeet(structSize: nat, off1: nat, size1: nat, off2: nat, size2: nat)
    requires off1 < off2 < structSize && off1 + size1 < WORD && off2 + size2 < WORD && size1 > 0 && size2 > 0
    requires !EltsDontOverlap(structSize, off1, size1, off2, size2)
    ensures !ApartInEveryCopy(structSize, off1, size1, off2, size2)
  {
    OwnResidue(WORD, off1 + size1);
    OwnResidue(WORD, off2 + size2);
    if off1 + size1 > off2 {
      assert SameFieldByte(structSize, off1, off2 - off1, off2, 0, 0);
    } else {
      assert SameFieldByte(structSize, off1, 0, off2, off1 + structSize - off2, -1);
    }
  }

  /** Tried both ways, the test holds exactly when fields of structs any number of
      structs apart have no byte in common. */
  lemma {:induction false} EltsDontOverlapExact(structSize: nat, off1: nat, size1: nat, off2: nat, size2: nat)
    requires off1 < structSize && off2 < structSize && off1 + size1 < WORD && off2 + size2 < WORD
    requires size1 > 0 && size2 > 0
    ensures EltsDontOverlap(structSize, off1, size1, off2, size2) ||
            EltsDontOverlap(structSize, off2, size2, off1, size1)
       <==> ApartInEveryCopy(structSize, off1, size1, off2, size2)
  {
    if EltsDontOverlap(structSize, off1, size1, off2, size2) {
      EltsApart(structSize, off1, size1, off2, size2);
    } else if EltsDontOverlap(structSize, off2, size2, off1, size1) {
      EltsApart(structSize, off2, size2, off1, size1);
      ApartSymmetric(structSize, off2, size2, off1, size1);
    } else if off1 < off2 {
      EltsMeet(structSize, off1, size1, off2, size2);
    } else if off2 < off1 {
      EltsMeet(structSize, off2, size2, off1, size1);
      if ApartInEveryCopy(structSize, off1, size1, off2, size2) {
        ApartSymmetric(structSize, off1, size1, off2, size2);
      }
    } else {
      assert SameFieldByte(structSize, off1, 0, off2, 0, 0);
    }
  }
}
