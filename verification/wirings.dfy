/** The wirings shipped with the machine and the reflector fixtures of its
    tests, shown to be permutations by an inverse-wiring certificate that is
    checked four positions at a time. */
module ShippedWirings {
  import opened Results
  import opened Alphabet
  import opened Reflector
  import opened RotorService

  const SHIFTED: string := "zabcdefghijklmnopqrstuvwxy"
  const SHIFTED_INVERSE: string := "bcdefghijklmnopqrstuvwxyza"
  const SWAPPED: string := "zbacdefghijklmnopqrstuvwxy"
  const SWAPPED_INVERSE: string := "cbdefghijklmnopqrstuvwxyza"
  const ROTOR_1_INVERSE: string := "uwygadfpvzbeckmthxslrinqoj"
  const ROTOR_2_INVERSE: string := "ajpczwrlfbdkotyuqgenhxmivs"

  lemma ShiftedPositions0To3()
    ensures InverseWiringBetween(SHIFTED, SHIFTED_INVERSE, 0, 4)
  {
    assert InverseWiringAt(SHIFTED, SHIFTED_INVERSE, 0);
    assert InverseWiringAt(SHIFTED, SHIFTED_INVERSE, 1);
    assert InverseWiringAt(SHIFTED, SHIFTED_INVERSE, 2);
    assert InverseWiringAt(SHIFTED, SHIFTED_INVERSE, 3);
  }

  lemma ShiftedPositions4To7()
    ensures InverseWiringBetween(SHIFTED, SHIFTED_INVERSE, 4, 8)
  {
    assert InverseWiringAt(SHIFTED, SHIFTED_INVERSE, 4);
    assert InverseWiringAt(SHIFTED, SHIFTED_INVERSE, 5);
    assert InverseWiringAt(SHIFTED, SHIFTED_INVERSE, 6);
    assert InverseWiringAt(SHIFTED, SHIFTED_INVERSE, 7);
  }

  lemma ShiftedPositions8To11()
    ensures InverseWiringBetween(SHIFTED, SHIFTED_INVERSE, 8, 12)
  {
    assert InverseWiringAt(SHIFTED, SHIFTED_INVERSE, 8);
    assert InverseWiringAt(SHIFTED, SHIFTED_INVERSE, 9);
    assert InverseWiringAt(SHIFTED, SHIFTED_INVERSE, 10);
    assert InverseWiringAt(SHIFTED, SHIFTED_INVERSE, 11);
  }

  lemma ShiftedPositions12To15()
    ensures InverseWiringBetween(SHIFTED, SHIFTED_INVERSE, 12, 16)
  {
    assert InverseWiringAt(SHIFTED, SHIFTED_INVERSE, 12);
    assert InverseWiringAt(SHIFTED, SHIFTED_INVERSE, 13);
    assert InverseWiringAt(SHIFTED, SHIFTED_INVERSE, 14);
    assert InverseWiringAt(SHIFTED, SHIFTED_INVERSE, 15);
  }

  lemma ShiftedPositions16To19()
    ensures InverseWiringBetween(SHIFTED, SHIFTED_INVERSE, 16, 20)
  {
    assert InverseWiringAt(SHIFTED, SHIFTED_INVERSE, 16);
    assert InverseWiringAt(SHIFTED, SHIFTED_INVERSE, 17);
    assert InverseWiringAt(SHIFTED, SHIFTED_INVERSE, 18);
    assert InverseWiringAt(SHIFTED, SHIFTED_INVERSE, 19);
  }

  lemma ShiftedPositions20To23()
    ensures InverseWiringBetween(SHIFTED, SHIFTED_INVERSE, 20, 24)
  {
    assert InverseWiringAt(SHIFTED, SHIFTED_INVERSE, 20);
    assert InverseWiringAt(SHIFTED, SHIFTED_INVERSE, 21);
    assert InverseWiringAt(SHIFTED, SHIFTED_INVERSE, 22);
    assert InverseWiringAt(SHIFTED, SHIFTED_INVERSE, 23);
  }

  lemma ShiftedPositions24To25()
    ensures InverseWiringBetween(SHIFTED, SHIFTED_INVERSE, 24, 26)
  {
    assert InverseWiringAt(SHIFTED, SHIFTED_INVERSE, 24);
    assert InverseWiringAt(SHIFTED, SHIFTED_INVERSE, 25);
  }

  /** The shifted alphabet 'zab...y' is a permutation of the alphabet. */
  lemma ShiftedIsPermutation()
    ensures IsInverseWiring(SHIFTED, SHIFTED_INVERSE) && IsPermutation(SHIFTED)
  {
    ShiftedPositions0To3();
    ShiftedPositions4To7();
    ShiftedPositions8To11();
    ShiftedPositions12To15();
    ShiftedPositions16To19();
    ShiftedPositions20To23();
    ShiftedPositions24To25();
    InverseWiringByBlocks(SHIFTED, SHIFTED_INVERSE);
  }

  lemma SwappedPositions0To3()
    ensures InverseWiringBetween(SWAPPED, SWAPPED_INVERSE, 0, 4)
  {
    assert InverseWiringAt(SWAPPED, SWAPPED_INVERSE, 0);
    assert InverseWiringAt(SWAPPED, SWAPPED_INVERSE, 1);
    assert InverseWiringAt(SWAPPED, SWAPPED_INVERSE, 2);
    assert InverseWiringAt(SWAPPED, SWAPPED_INVERSE, 3);
  }

  lemma SwappedPositions4To7()
    ensures InverseWiringBetween(SWAPPED, SWAPPED_INVERSE, 4, 8)
  {
    assert InverseWiringAt(SWAPPED, SWAPPED_INVERSE, 4);
    assert InverseWiringAt(SWAPPED, SWAPPED_INVERSE, 5);
    assert InverseWiringAt(SWAPPED, SWAPPED_INVERSE, 6);
    assert InverseWiringAt(SWAPPED, SWAPPED_INVERSE, 7);
  }

  lemma SwappedPositions8To11()
    ensures InverseWiringBetween(SWAPPED, SWAPPED_INVERSE, 8, 12)
  {
    assert InverseWiringAt(SWAPPED, SWAPPED_INVERSE, 8);
    assert InverseWiringAt(SWAPPED, SWAPPED_INVERSE, 9);
    assert InverseWiringAt(SWAPPED, SWAPPED_INVERSE, 10);
    assert InverseWiringAt(SWAPPED, SWAPPED_INVERSE, 11);
  }

  lemma SwappedPositions12To15()
    ensures InverseWiringBetween(SWAPPED, SWAPPED_INVERSE, 12, 16)
  {
    assert InverseWiringAt(SWAPPED, SWAPPED_INVERSE, 12);
    assert InverseWiringAt(SWAPPED, SWAPPED_INVERSE, 13);
    assert InverseWiringAt(SWAPPED, SWAPPED_INVERSE, 14);
    assert InverseWiringAt(SWAPPED, SWAPPED_INVERSE, 15);
  }

  lemma SwappedPositions16To19()
    ensures InverseWiringBetween(SWAPPED, SWAPPED_INVERSE, 16, 20)
  {
    assert InverseWiringAt(SWAPPED, SWAPPED_INVERSE, 16);
    assert InverseWiringAt(SWAPPED, SWAPPED_INVERSE, 17);
    assert InverseWiringAt(SWAPPED, SWAPPED_INVERSE, 18);
    assert InverseWiringAt(SWAPPED, SWAPPED_INVERSE, 19);
  }

  lemma SwappedPositions20To23()
    ensures InverseWiringBetween(SWAPPED, SWAPPED_INVERSE, 20, 24)
  {
    assert InverseWiringAt(SWAPPED, SWAPPED_INVERSE, 20);
    assert InverseWiringAt(SWAPPED, SWAPPED_INVERSE, 21);
    assert InverseWiringAt(SWAPPED, SWAPPED_INVERSE, 22);
    assert InverseWiringAt(SWAPPED, SWAPPED_INVERSE, 23);
  }

  lemma SwappedPositions24To25()
    ensures InverseWiringBetween(SWAPPED, SWAPPED_INVERSE, 24, 26)
  {
    assert InverseWiringAt(SWAPPED, SWAPPED_INVERSE, 24);
    assert InverseWiringAt(SWAPPED, SWAPPED_INVERSE, 25);
  }

  /** The shifted alphabet with 'a' and 'b' swapped is a permutation of the alphabet. */
  lemma SwappedIsPermutation()
    ensures IsInverseWiring(SWAPPED, SWAPPED_INVERSE) && IsPermutation(SWAPPED)
  {
    SwappedPositions0To3();
    SwappedPositions4To7();
    SwappedPositions8To11();
    SwappedPositions12To15();
    SwappedPositions16To19();
    SwappedPositions20To23();
    SwappedPositions24To25();
    InverseWiringByBlocks(SWAPPED, SWAPPED_INVERSE);
  }

  lemma Reflector1Positions0To3()
    ensures InverseWiringBetween(REFLECTOR_1, REFLECTOR_1, 0, 4)
  {
    assert InverseWiringAt(REFLECTOR_1, REFLECTOR_1, 0);
    assert InverseWiringAt(REFLECTOR_1, REFLECTOR_1, 1);
    assert InverseWiringAt(REFLECTOR_1, REFLECTOR_1, 2);
    assert InverseWiringAt(REFLECTOR_1, REFLECTOR_1, 3);
  }

  lemma Reflector1Positions4To7()
    ensures InverseWiringBetween(REFLECTOR_1, REFLECTOR_1, 4, 8)
  {
    assert InverseWiringAt(REFLECTOR_1, REFLECTOR_1, 4);
    assert InverseWiringAt(REFLECTOR_1, REFLECTOR_1, 5);
    assert InverseWiringAt(REFLECTOR_1, REFLECTOR_1, 6);
    assert InverseWiringAt(REFLECTOR_1, REFLECTOR_1, 7);
  }

  lemma Reflector1Positions8To11()
    ensures InverseWiringBetween(REFLECTOR_1, REFLECTOR_1, 8, 12)
  {
    assert InverseWiringAt(REFLECTOR_1, REFLECTOR_1, 8);
    assert InverseWiringAt(REFLECTOR_1, REFLECTOR_1, 9);
    assert InverseWiringAt(REFLECTOR_1, REFLECTOR_1, 10);
    assert InverseWiringAt(REFLECTOR_1, REFLECTOR_1, 11);
  }

  lemma Reflector1Positions12To15()
    ensures InverseWiringBetween(REFLECTOR_1, REFLECTOR_1, 12, 16)
  {
    assert InverseWiringAt(REFLECTOR_1, REFLECTOR_1, 12);
    assert InverseWiringAt(REFLECTOR_1, REFLECTOR_1, 13);
    assert InverseWiringAt(REFLECTOR_1, REFLECTOR_1, 14);
    assert InverseWiringAt(REFLECTOR_1, REFLECTOR_1, 15);
  }

  lemma Reflector1Positions16To19()
    ensures InverseWiringBetween(REFLECTOR_1, REFLECTOR_1, 16, 20)
  {
    assert InverseWiringAt(REFLECTOR_1, REFLECTOR_1, 16);
    assert InverseWiringAt(REFLECTOR_1, REFLECTOR_1, 17);
    assert InverseWiringAt(REFLECTOR_1, REFLECTOR_1, 18);
    assert InverseWiringAt(REFLECTOR_1, REFLECTOR_1, 19);
  }

  lemma Reflector1Positions20To23()
    ensures InverseWiringBetween(REFLECTOR_1, REFLECTOR_1, 20, 24)
  {
    assert InverseWiringAt(REFLECTOR_1, REFLECTOR_1, 20);
    assert InverseWiringAt(REFLECTOR_1, REFLECTOR_1, 21);
    assert InverseWiringAt(REFLECTOR_1, REFLECTOR_1, 22);
    assert InverseWiringAt(REFLECTOR_1, REFLECTOR_1, 23);
  }

  lemma Reflector1Positions24To25()
    ensures InverseWiringBetween(REFLECTOR_1, REFLECTOR_1, 24, 26)
  {
    assert InverseWiringAt(REFLECTOR_1, REFLECTOR_1, 24);
    assert InverseWiringAt(REFLECTOR_1, REFLECTOR_1, 25);
  }

  /** REFLECTOR_1, its own inverse is a permutation of the alphabet. */
  lemma Reflector1IsPermutation()
    ensures IsInverseWiring(REFLECTOR_1, REFLECTOR_1) && IsPermutation(REFLECTOR_1)
  {
    Reflector1Positions0To3();
    Reflector1Positions4To7();
    Reflector1Positions8To11();
    Reflector1Positions12To15();
    Reflector1Positions16To19();
    Reflector1Positions20To23();
    Reflector1Positions24To25();
    InverseWiringByBlocks(REFLECTOR_1, REFLECTOR_1);
  }

  lemma Reflector2Positions0To3()
    ensures InverseWiringBetween(REFLECTOR_2, REFLECTOR_2, 0, 4)
  {
    assert InverseWiringAt(REFLECTOR_2, REFLECTOR_2, 0);
    assert InverseWiringAt(REFLECTOR_2, REFLECTOR_2, 1);
    assert InverseWiringAt(REFLECTOR_2, REFLECTOR_2, 2);
    assert InverseWiringAt(REFLECTOR_2, REFLECTOR_2, 3);
  }

  lemma Reflector2Positions4To7()
    ensures InverseWiringBetween(REFLECTOR_2, REFLECTOR_2, 4, 8)
  {
    assert InverseWiringAt(REFLECTOR_2, REFLECTOR_2, 4);
    assert InverseWiringAt(REFLECTOR_2, REFLECTOR_2, 5);
    assert InverseWiringAt(REFLECTOR_2, REFLECTOR_2, 6);
    assert InverseWiringAt(REFLECTOR_2, REFLECTOR_2, 7);
  }

  lemma Reflector2Positions8To11()
    ensures InverseWiringBetween(REFLECTOR_2, REFLECTOR_2, 8, 12)
  {
    assert InverseWiringAt(REFLECTOR_2, REFLECTOR_2, 8);
    assert InverseWiringAt(REFLECTOR_2, REFLECTOR_2, 9);
    assert InverseWiringAt(REFLECTOR_2, REFLECTOR_2, 10);
    assert InverseWiringAt(REFLECTOR_2, REFLECTOR_2, 11);
  }

  lemma Reflector2Positions12To15()
    ensures InverseWiringBetween(REFLECTOR_2, REFLECTOR_2, 12, 16)
  {
    assert InverseWiringAt(REFLECTOR_2, REFLECTOR_2, 12);
    assert InverseWiringAt(REFLECTOR_2, REFLECTOR_2, 13);
    assert InverseWiringAt(REFLECTOR_2, REFLECTOR_2, 14);
    assert InverseWiringAt(REFLECTOR_2, REFLECTOR_2, 15);
  }

  lemma Reflector2Positions16To19()
    ensures InverseWiringBetween(REFLECTOR_2, REFLECTOR_2, 16, 20)
  {
    assert InverseWiringAt(REFLECTOR_2, REFLECTOR_2, 16);
    assert InverseWiringAt(REFLECTOR_2, REFLECTOR_2, 17);
    assert InverseWiringAt(REFLECTOR_2, REFLECTOR_2, 18);
    assert InverseWiringAt(REFLECTOR_2, REFLECTOR_2, 19);
  }

  lemma Reflector2Positions20To23()
    ensures InverseWiringBetween(REFLECTOR_2, REFLECTOR_2, 20, 24)
  {
    assert InverseWiringAt(REFLECTOR_2, REFLECTOR_2, 20);
    assert InverseWiringAt(REFLECTOR_2, REFLECTOR_2, 21);
    assert InverseWiringAt(REFLECTOR_2, REFLECTOR_2, 22);
    assert InverseWiringAt(REFLECTOR_2, REFLECTOR_2, 23);
  }

  lemma Reflector2Positions24To25()
    ensures InverseWiringBetween(REFLECTOR_2, REFLECTOR_2, 24, 26)
  {
    assert InverseWiringAt(REFLECTOR_2, REFLECTOR_2, 24);
    assert InverseWiringAt(REFLECTOR_2, REFLECTOR_2, 25);
  }

  /** REFLECTOR_2, its own inverse is a permutation of the alphabet. */
  lemma Reflector2IsPermutation()
    ensures IsInverseWiring(REFLECTOR_2, REFLECTOR_2) && IsPermutation(REFLECTOR_2)
  {
    Reflector2Positions0To3();
    Reflector2Positions4To7();
    Reflector2Positions8To11();
    Reflector2Positions12To15();
    Reflector2Positions16To19();
    Reflector2Positions20To23();
    Reflector2Positions24To25();
    InverseWiringByBlocks(REFLECTOR_2, REFLECTOR_2);
  }

  lemma Rotor1Positions0To3()
    ensures InverseWiringBetween(ROTOR_1, ROTOR_1_INVERSE, 0, 4)
  {
    assert InverseWiringAt(ROTOR_1, ROTOR_1_INVERSE, 0);
    assert InverseWiringAt(ROTOR_1, ROTOR_1_INVERSE, 1);
    assert InverseWiringAt(ROTOR_1, ROTOR_1_INVERSE, 2);
    assert InverseWiringAt(ROTOR_1, ROTOR_1_INVERSE, 3);
  }

  lemma Rotor1Positions4To7()
    ensures InverseWiringBetween(ROTOR_1, ROTOR_1_INVERSE, 4, 8)
  {
    assert InverseWiringAt(ROTOR_1, ROTOR_1_INVERSE, 4);
    assert InverseWiringAt(ROTOR_1, ROTOR_1_INVERSE, 5);
    assert InverseWiringAt(ROTOR_1, ROTOR_1_INVERSE, 6);
    assert InverseWiringAt(ROTOR_1, ROTOR_1_INVERSE, 7);
  }

  lemma Rotor1Positions8To11()
    ensures InverseWiringBetween(ROTOR_1, ROTOR_1_INVERSE, 8, 12)
  {
    assert InverseWiringAt(ROTOR_1, ROTOR_1_INVERSE, 8);
    assert InverseWiringAt(ROTOR_1, ROTOR_1_INVERSE, 9);
    assert InverseWiringAt(ROTOR_1, ROTOR_1_INVERSE, 10);
    assert InverseWiringAt(ROTOR_1, ROTOR_1_INVERSE, 11);
  }

  lemma Rotor1Positions12To15()
    ensures InverseWiringBetween(ROTOR_1, ROTOR_1_INVERSE, 12, 16)
  {
    assert InverseWiringAt(ROTOR_1, ROTOR_1_INVERSE, 12);
    assert InverseWiringAt(ROTOR_1, ROTOR_1_INVERSE, 13);
    assert InverseWiringAt(ROTOR_1, ROTOR_1_INVERSE, 14);
    assert InverseWiringAt(ROTOR_1, ROTOR_1_INVERSE, 15);
  }

  lemma Rotor1Positions16To19()
    ensures InverseWiringBetween(ROTOR_1, ROTOR_1_INVERSE, 16, 20)
  {
    assert InverseWiringAt(ROTOR_1, ROTOR_1_INVERSE, 16);
    assert InverseWiringAt(ROTOR_1, ROTOR_1_INVERSE, 17);
    assert InverseWiringAt(ROTOR_1, ROTOR_1_INVERSE, 18);
    assert InverseWiringAt(ROTOR_1, ROTOR_1_INVERSE, 19);
  }

  lemma Rotor1Positions20To23()
    ensures InverseWiringBetween(ROTOR_1, ROTOR_1_INVERSE, 20, 24)
  {
    assert InverseWiringAt(ROTOR_1, ROTOR_1_INVERSE, 20);
    assert InverseWiringAt(ROTOR_1, ROTOR_1_INVERSE, 21);
    assert InverseWiringAt(ROTOR_1, ROTOR_1_INVERSE, 22);
    assert InverseWiringAt(ROTOR_1, ROTOR_1_INVERSE, 23);
  }

  lemma Rotor1Positions24To25()
    ensures InverseWiringBetween(ROTOR_1, ROTOR_1_INVERSE, 24, 26)
  {
    assert InverseWiringAt(ROTOR_1, ROTOR_1_INVERSE, 24);
    assert InverseWiringAt(ROTOR_1, ROTOR_1_INVERSE, 25);
  }

  /** ROTOR_1 is a permutation of the alphabet. */
  lemma Rotor1IsPermutation()
    ensures IsInverseWiring(ROTOR_1, ROTOR_1_INVERSE) && IsPermutation(ROTOR_1)
  {
    Rotor1Positions0To3();
    Rotor1Positions4To7();
    Rotor1Positions8To11();
    Rotor1Positions12To15();
    Rotor1Positions16To19();
    Rotor1Positions20To23();
    Rotor1Positions24To25();
    InverseWiringByBlocks(ROTOR_1, ROTOR_1_INVERSE);
  }

  lemma Rotor2Positions0To3()
    ensures InverseWiringBetween(ROTOR_2, ROTOR_2_INVERSE, 0, 4)
  {
    assert InverseWiringAt(ROTOR_2, ROTOR_2_INVERSE, 0);
    assert InverseWiringAt(ROTOR_2, ROTOR_2_INVERSE, 1);
    assert InverseWiringAt(ROTOR_2, ROTOR_2_INVERSE, 2);
    assert InverseWiringAt(ROTOR_2, ROTOR_2_INVERSE, 3);
  }

  lemma Rotor2Positions4To7()
    ensures InverseWiringBetween(ROTOR_2, ROTOR_2_INVERSE, 4, 8)
  {
    assert InverseWiringAt(ROTOR_2, ROTOR_2_INVERSE, 4);
    assert InverseWiringAt(ROTOR_2, ROTOR_2_INVERSE, 5);
    assert InverseWiringAt(ROTOR_2, ROTOR_2_INVERSE, 6);
    assert InverseWiringAt(ROTOR_2, ROTOR_2_INVERSE, 7);
  }

  lemma Rotor2Positions8To11()
    ensures InverseWiringBetween(ROTOR_2, ROTOR_2_INVERSE, 8, 12)
  {
    assert InverseWiringAt(ROTOR_2, ROTOR_2_INVERSE, 8);
    assert InverseWiringAt(ROTOR_2, ROTOR_2_INVERSE, 9);
    assert InverseWiringAt(ROTOR_2, ROTOR_2_INVERSE, 10);
    assert InverseWiringAt(ROTOR_2, ROTOR_2_INVERSE, 11);
  }

  lemma Rotor2Positions12To15()
    ensures InverseWiringBetween(ROTOR_2, ROTOR_2_INVERSE, 12, 16)
  {
    assert InverseWiringAt(ROTOR_2, ROTOR_2_INVERSE, 12);
    assert InverseWiringAt(ROTOR_2, ROTOR_2_INVERSE, 13);
    assert InverseWiringAt(ROTOR_2, ROTOR_2_INVERSE, 14);
    assert InverseWiringAt(ROTOR_2, ROTOR_2_INVERSE, 15);
  }

  lemma Rotor2Positions16To19()
    ensures InverseWiringBetween(ROTOR_2, ROTOR_2_INVERSE, 16, 20)
  {
    assert InverseWiringAt(ROTOR_2, ROTOR_2_INVERSE, 16);
    assert InverseWiringAt(ROTOR_2, ROTOR_2_INVERSE, 17);
    assert InverseWiringAt(ROTOR_2, ROTOR_2_INVERSE, 18);
    assert InverseWiringAt(ROTOR_2, ROTOR_2_INVERSE, 19);
  }

  lemma Rotor2Positions20To23()
    ensures InverseWiringBetween(ROTOR_2, ROTOR_2_INVERSE, 20, 24)
  {
    assert InverseWiringAt(ROTOR_2, ROTOR_2_INVERSE, 20);
    assert InverseWiringAt(ROTOR_2, ROTOR_2_INVERSE, 21);
    assert InverseWiringAt(ROTOR_2, ROTOR_2_INVERSE, 22);
    assert InverseWiringAt(ROTOR_2, ROTOR_2_INVERSE, 23);
  }

  lemma Rotor2Positions24To25()
    ensures InverseWiringBetween(ROTOR_2, ROTOR_2_INVERSE, 24, 26)
  {
    assert InverseWiringAt(ROTOR_2, ROTOR_2_INVERSE, 24);
    assert InverseWiringAt(ROTOR_2, ROTOR_2_INVERSE, 25);
  }

  /** ROTOR_2 is a permutation of the alphabet. */
  lemma Rotor2IsPermutation()
    ensures IsInverseWiring(ROTOR_2, ROTOR_2_INVERSE) && IsPermutation(ROTOR_2)
  {
    Rotor2Positions0To3();
    Rotor2Positions4To7();
    Rotor2Positions8To11();
    Rotor2Positions12To15();
    Rotor2Positions16To19();
    Rotor2Positions20To23();
    Rotor2Positions24To25();
    InverseWiringByBlocks(ROTOR_2, ROTOR_2_INVERSE);
  }
  /** ROTOR_3 and REFLECTOR_2 carry the same wiring. */
  lemma Rotor3IsPermutation()
    ensures IsInverseWiring(ROTOR_3, ROTOR_3) && IsPermutation(ROTOR_3)
  {
    assert ROTOR_3 == REFLECTOR_2;
    Reflector2IsPermutation();
  }

  /** No letter of the shifted alphabet sits at its own index. */
  lemma ShiftedHasNoFixedPoint()
    ensures FixedPointFreeFrom(SHIFTED, 0)
  {
    assert FixedPointFreeFrom(SHIFTED, 22);
    assert FixedPointFreeFrom(SHIFTED, 18);
    assert FixedPointFreeFrom(SHIFTED, 14);
    assert FixedPointFreeFrom(SHIFTED, 10);
    assert FixedPointFreeFrom(SHIFTED, 6);
    assert FixedPointFreeFrom(SHIFTED, 2);
  }

  /** No letter of REFLECTOR_1 sits at its own index. */
  lemma Reflector1HasNoFixedPoint()
    ensures FixedPointFreeFrom(REFLECTOR_1, 0)
  {
    assert FixedPointFreeFrom(REFLECTOR_1, 22);
    assert FixedPointFreeFrom(REFLECTOR_1, 18);
    assert FixedPointFreeFrom(REFLECTOR_1, 14);
    assert FixedPointFreeFrom(REFLECTOR_1, 10);
    assert FixedPointFreeFrom(REFLECTOR_1, 6);
    assert FixedPointFreeFrom(REFLECTOR_1, 2);
  }

  /** No letter of REFLECTOR_2 sits at its own index. */
  lemma Reflector2HasNoFixedPoint()
    ensures FixedPointFreeFrom(REFLECTOR_2, 0)
  {
    assert FixedPointFreeFrom(REFLECTOR_2, 22);
    assert FixedPointFreeFrom(REFLECTOR_2, 18);
    assert FixedPointFreeFrom(REFLECTOR_2, 14);
    assert FixedPointFreeFrom(REFLECTOR_2, 10);
    assert FixedPointFreeFrom(REFLECTOR_2, 6);
    assert FixedPointFreeFrom(REFLECTOR_2, 2);
  }

  /** The shifted alphabet is accepted as a reflector and sends 0 to 25,
      1 to 0 and 25 to 24. */
  lemma ShiftedReflector()
    ensures NewReflectorService(SHIFTED).Ok?
    ensures GoThroughFromRelativeIndex(NewReflectorService(SHIFTED).value, 0) == Some(25)
    ensures GoThroughFromRelativeIndex(NewReflectorService(SHIFTED).value, 1) == Some(0)
    ensures GoThroughFromRelativeIndex(NewReflectorService(SHIFTED).value, 25) == Some(24)
  {
    ShiftedReflectorIsAccepted();
    ReflectsToOtherContact(SHIFTED, 0);
    ReflectsToOtherContact(SHIFTED, 1);
    ReflectsToOtherContact(SHIFTED, 25);
  }

  lemma ShiftedReflectorIsAccepted()
    ensures NewReflectorService(SHIFTED).Ok?
  {
    ShiftedIsPermutation();
    ShiftedHasNoFixedPoint();
    FixedPointFreeFromHolds(SHIFTED, 0);
  }

  /** Swapping 'a' and 'b' in it leaves 'b' at its own index: rejected. */
  lemma SelfMappingReflectorIsRejected()
    ensures NewReflectorService(SWAPPED) == Err(ReflectorMapIndexToSameIndex)
  {
    SwappedIsPermutation();
    assert LetterIndex(SWAPPED[1]) == 1;
  }

  /** A string that is not a complete alphabet is rejected first. */
  lemma IncorrectReflectorIsRejected()
    ensures NewReflectorService("incorrect alphabet") == Err(InvalidAlphabet)
  {
    IncorrectAlphabetIsRejected();
  }

  /** The shipped reflectors pass both checks and swap contacts in pairs. */
  lemma ShippedReflectorsAreInvolutions()
    ensures NewReflectorService(REFLECTOR_1).Ok? && Involutive(NewReflectorService(REFLECTOR_1).value)
    ensures NewReflectorService(REFLECTOR_2).Ok? && Involutive(NewReflectorService(REFLECTOR_2).value)
  {
    Reflector1IsPermutation();
    Reflector1HasNoFixedPoint();
    SelfInverseConfigIsInvolutive(REFLECTOR_1);
    Reflector2IsPermutation();
    Reflector2HasNoFixedPoint();
    SelfInverseConfigIsInvolutive(REFLECTOR_2);
  }
}
