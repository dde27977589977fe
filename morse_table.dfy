/** The fixed table of Morse codes for A-Z and 0-9, and the facts about
    it that the codec relies on: every code is a short string of dots and
    dashes, and no two letters share a code. */
module MorseTable {
  /** `morseMap`, in the order its entries are written. */
  const Table: seq<(char, string)> := [
    ('A', ".-"), ('B', "-..."), ('C', "-.-."), ('D', "-.."), ('E', "."), ('F', "..-."),
    ('G', "--."), ('H', "...."), ('I', ".."), ('J', ".---"), ('K', "-.-"), ('L', ".-.."),
    ('M', "--"), ('N', "-."), ('O', "---"), ('P', ".--."), ('Q', "--.-"), ('R', ".-."),
    ('S', "..."), ('T', "-"), ('U', "..-"), ('V', "...-"), ('W', ".--"), ('X', "-..-"),
    ('Y', "-.--"), ('Z', "--.."),
    ('0', "-----"), ('1', ".----"), ('2', "..---"), ('3', "...--"), ('4', "....-"),
    ('5', "....."), ('6', "-...."), ('7', "--..."), ('8', "---.."), ('9', "----.")
  ]

  /** The characters the table covers. */
  predicate InAlphabet(c: char)
  {
    'A' <= c <= 'Z' || '0' <= c <= '9'
  }

  /** Where the table holds the entry for a letter or digit. */
  function TableIndex(c: char): (i: nat)
    requires InAlphabet(c)
    ensures i < |Table| && Table[i].0 == c
  {
    if 'A' <= c <= 'Z' then c as int - 'A' as int else c as int - '0' as int + 26
  }

  /** Table check over the literal: entries 0 to 25 hold `A` to `Z`. */
  lemma LettersAtoZInOrder()
    ensures forall i :: 0 <= i < 26 ==> InAlphabet(Table[i].0) && TableIndex(Table[i].0) == i
  {
  }

  /** Table check over the literal: entries 26 to 35 hold `0` to `9`. */
  lemma DigitsInOrder()
    ensures forall i :: 26 <= i < |Table| ==> InAlphabet(Table[i].0) && TableIndex(Table[i].0) == i
  {
  }

  /** Table check over the literal, combining the two above: every entry
      stands where `TableIndex` looks for it. */
  lemma LettersInOrder()
    ensures forall i :: 0 <= i < |Table| ==> InAlphabet(Table[i].0) && TableIndex(Table[i].0) == i
  {
    LettersAtoZInOrder();
    DigitsInOrder();
  }

  /** Every code is a string of one to five dots and dashes. */
  lemma CodesAreDotDash()
    ensures forall i :: 0 <= i < |Table| ==>
      1 <= |Table[i].1| <= 5 && forall k :: 0 <= k < |Table[i].1| ==> Table[i].1[k] == '.' || Table[i].1[k] == '-'
  {
  }

  function Bit(c: char): nat
  {
    if c == '-' then 1 else 0
  }

  /** The node a code of one to five symbols leads to in the Morse tree,
      numbered breadth first from 1 at the root: a dot goes to child
      2v, a dash to child 2v + 1. Other lengths give 0, which is no node. */
  function Position(code: string): (v: nat)
    ensures 1 <= |code| <= 5 ==> 2 <= v < 64
  {
    if |code| == 1 then 2 + Bit(code[0])
    else if |code| == 2 then 4 + 2 * Bit(code[0]) + Bit(code[1])
    else if |code| == 3 then 8 + 4 * Bit(code[0]) + 2 * Bit(code[1]) + Bit(code[2])
    else if |code| == 4 then 16 + 8 * Bit(code[0]) + 4 * Bit(code[1]) + 2 * Bit(code[2]) + Bit(code[3])
    else if |code| == 5 then 32 + 16 * Bit(code[0]) + 8 * Bit(code[1]) + 4 * Bit(code[2]) + 2 * Bit(code[3]) + Bit(code[4])
    else 0
  }

  /** The Morse tree: the letter or digit at each node, `*` where there is none. */
  function TreeLetter(v: nat): char
  {
    match v
    case 2 => 'E'
    case 3 => 'T'
    case 4 => 'I'
    case 5 => 'A'
    case 6 => 'N'
    case 7 => 'M'
    case 8 => 'S'
    case 9 => 'U'
    case 10 => 'R'
    case 11 => 'W'
    case 12 => 'D'
    case 13 => 'K'
    case 14 => 'G'
    case 15 => 'O'
    case 16 => 'H'
    case 17 => 'V'
    case 18 => 'F'
    case 20 => 'L'
    case 22 => 'P'
    case 23 => 'J'
    case 24 => 'B'
    case 25 => 'X'
    case 26 => 'C'
    case 27 => 'Y'
    case 28 => 'Z'
    case 29 => 'Q'
    case 32 => '5'
    case 33 => '4'
    case 35 => '3'
    case 39 => '2'
    case 47 => '1'
    case 48 => '6'
    case 56 => '7'
    case 60 => '8'
    case 62 => '9'
    case 63 => '0'
    case _ => '*'
  }

  /** Entry `i` of the table leads through the Morse tree to its own letter. */
  predicate InTree(i: nat)
    requires i < |Table|
  {
    TreeLetter(Position(Table[i].1)) == Table[i].0
  }

  /** The entries for A to F. */
  lemma EntriesInTree0(i: nat)
    requires 0 <= i < 6
    ensures InTree(i)
  {
    if i == 0 {
      assert Table[0] == ('A', ".-") && Position(".-") == 5 && TreeLetter(5) == 'A';
    } else if i == 1 {
      assert Table[1] == ('B', "-...") && Position("-...") == 24 && TreeLetter(24) == 'B';
    } else if i == 2 {
      assert Table[2] == ('C', "-.-.") && Position("-.-.") == 26 && TreeLetter(26) == 'C';
    } else if i == 3 {
      assert Table[3] == ('D', "-..") && Position("-..") == 12 && TreeLetter(12) == 'D';
    } else if i == 4 {
      assert Table[4] == ('E', ".") && Position(".") == 2 && TreeLetter(2) == 'E';
    } else if i == 5 {
      assert Table[5] == ('F', "..-.") && Position("..-.") == 18 && TreeLetter(18) == 'F';
    }
  }

  /** The entries for G to L. */
  lemma EntriesInTree6(i: nat)
    requires 6 <= i < 12
    ensures InTree(i)
  {
    if i == 6 {
      assert Table[6] == ('G', "--.") && Position("--.") == 14 && TreeLetter(14) == 'G';
    } else if i == 7 {
      assert Table[7] == ('H', "....") && Position("....") == 16 && TreeLetter(16) == 'H';
    } else if i == 8 {
      assert Table[8] == ('I', "..") && Position("..") == 4 && TreeLetter(4) == 'I';
    } else if i == 9 {
      assert Table[9] == ('J', ".---") && Position(".---") == 23 && TreeLetter(23) == 'J';
    } else if i == 10 {
      assert Table[10] == ('K', "-.-") && Position("-.-") == 13 && TreeLetter(13) == 'K';
    } else if i == 11 {
      assert Table[11] == ('L', ".-..") && Position(".-..") == 20 && TreeLetter(20) == 'L';
    }
  }

  /** The entries for M to R. */
  lemma EntriesInTree12(i: nat)
    requires 12 <= i < 18
    ensures InTree(i)
  {
    if i == 12 {
      assert Table[12] == ('M', "--") && Position("--") == 7 && TreeLetter(7) == 'M';
    } else if i == 13 {
      assert Table[13] == ('N', "-.") && Position("-.") == 6 && TreeLetter(6) == 'N';
    } else if i == 14 {
      assert Table[14] == ('O', "---") && Position("---") == 15 && TreeLetter(15) == 'O';
    } else if i == 15 {
      assert Table[15] == ('P', ".--.") && Position(".--.") == 22 && TreeLetter(22) == 'P';
    } else if i == 16 {
      assert Table[16] == ('Q', "--.-") && Position("--.-") == 29 && TreeLetter(29) == 'Q';
    } else if i == 17 {
      assert Table[17] == ('R', ".-.") && Position(".-.") == 10 && TreeLetter(10) == 'R';
    }
  }

  /** The entries for S to X. */
  lemma EntriesInTree18(i: nat)
    requires 18 <= i < 24
    ensures InTree(i)
  {
    if i == 18 {
      assert Table[18] == ('S', "...") && Position("...") == 8 && TreeLetter(8) == 'S';
    } else if i == 19 {
      assert Table[19] == ('T', "-") && Position("-") == 3 && TreeLetter(3) == 'T';
    } else if i == 20 {
      assert Table[20] == ('U', "..-") && Position("..-") == 9 && TreeLetter(9) == 'U';
    } else if i == 21 {
      assert Table[21] == ('V', "...-") && Position("...-") == 17 && TreeLetter(17) == 'V';
    } else if i == 22 {
      assert Table[22] == ('W', ".--") && Position(".--") == 11 && TreeLetter(11) == 'W';
    } else if i == 23 {
      assert Table[23] == ('X', "-..-") && Position("-..-") == 25 && TreeLetter(25) == 'X';
    }
  }

  /** The entries for Y to 3. */
  lemma EntriesInTree24(i: nat)
    requires 24 <= i < 30
    ensures InTree(i)
  {
    if i == 24 {
      assert Table[24] == ('Y', "-.--") && Position("-.--") == 27 && TreeLetter(27) == 'Y';
    } else if i == 25 {
      assert Table[25] == ('Z', "--..") && Position("--..") == 28 && TreeLetter(28) == 'Z';
    } else if i == 26 {
      assert Table[26] == ('0', "-----") && Position("-----") == 63 && TreeLetter(63) == '0';
    } else if i == 27 {
      assert Table[27] == ('1', ".----") && Position(".----") == 47 && TreeLetter(47) == '1';
    } else if i == 28 {
      assert Table[28] == ('2', "..---") && Position("..---") == 39 && TreeLetter(39) == '2';
    } else if i == 29 {
      assert Table[29] == ('3', "...--") && Position("...--") == 35 && TreeLetter(35) == '3';
    }
  }

  /** The entries for 4 to 9. */
  lemma EntriesInTree30(i: nat)
    requires 30 <= i < 36
    ensures InTree(i)
  {
    if i == 30 {
      assert Table[30] == ('4', "....-") && Position("....-") == 33 && TreeLetter(33) == '4';
    } else if i == 31 {
      assert Table[31] == ('5', ".....") && Position(".....") == 32 && TreeLetter(32) == '5';
    } else if i == 32 {
      assert Table[32] == ('6', "-....") && Position("-....") == 48 && TreeLetter(48) == '6';
    } else if i == 33 {
      assert Table[33] == ('7', "--...") && Position("--...") == 56 && TreeLetter(56) == '7';
    } else if i == 34 {
      assert Table[34] == ('8', "---..") && Position("---..") == 60 && TreeLetter(60) == '8';
    } else if i == 35 {
      assert Table[35] == ('9', "----.") && Position("----.") == 62 && TreeLetter(62) == '9';
    }
  }

  lemma TableEntries()
    ensures forall i :: 0 <= i < |Table| ==> InTree(i)
  {
    forall i | 0 <= i < |Table|
      ensures InTree(i)
    {
      if i < 6 { EntriesInTree0(i); }
      else if i < 12 { EntriesInTree6(i); }
      else if i < 18 { EntriesInTree12(i); }
      else if i < 24 { EntriesInTree18(i); }
      else if i < 30 { EntriesInTree24(i); }
      else { EntriesInTree30(i); }
    }
  }

  /** The 36 codes are pairwise distinct: the tree tells every code's letter. */
  lemma CodesDistinct()
    ensures forall i, j :: 0 <= i < j < |Table| ==> Table[i].1 != Table[j].1
  {
    TableEntries();
    LettersInOrder();
    forall i, j | 0 <= i < j < |Table|
      ensures Table[i].1 != Table[j].1
    {
      assert InTree(i) && InTree(j);
      assert TableIndex(Table[i].0) == i && TableIndex(Table[j].0) == j;
    }
  }
}
