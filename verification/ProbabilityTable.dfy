/** The probability estimation state machine of ITU-T T.81 Table D.2 in the
    packed form of jaricom.c, and what the coder needs of such a table. */
module ProbabilityTable {
  import opened Numbers

  /** The packing macro V: Qe above, then the MPS successor, then the switch
      flag and the LPS successor sharing the low byte. */
  function Pack(qe: nat, nextLps: nat, nextMps: nat, switchMps: nat): (v: nat) {
    qe * 0x10000 + nextMps * 0x100 + switchMps * 0x80 + nextLps
  }

  /** A statistics bin is one byte: the sense of the MPS on top of a state index. */
  function Index(sv: byte): nat { sv % 128 }

  function Mps(sv: byte): bit { sv / 128 }

  function Qe(entry: nat): nat { entry / 0x10000 }

  function NextLps(entry: nat): byte { entry % 0x100 }

  function NextMps(entry: nat): byte { entry / 0x100 % 0x100 }

  /** (sv & 0x80) ^ next : the successor's switch flag flips the MPS sense. */
  function Successor(sv: byte, next: byte): byte {
    (sv / 128 + next / 128) % 2 * 128 + next % 128
  }

  predicate GoodEntry(entry: nat, size: nat) {
    && 1 <= Qe(entry) < 0x8000
    && NextLps(entry) % 128 < size
    && NextMps(entry) % 128 < size
  }

  /** What makes a packed table usable: every Qe is below half the interval and
      every successor is inside the table. */
  ghost predicate ValidTable(tab: seq<nat>) {
    forall i :: 0 <= i < |tab| ==> GoodEntry(tab[i], |tab|)
  }

  ghost predicate ValidStats(tab: seq<nat>, stats: seq<byte>) {
    forall i :: 0 <= i < |stats| ==> Index(stats[i]) < |tab|
  }

  /** Unpacking recovers the four columns of the table. */
  lemma Unpack(qe: nat, nextLps: nat, nextMps: nat, switchMps: nat)
    requires nextLps < 128 && nextMps < 128 && switchMps <= 1
    ensures var e := Pack(qe, nextLps, nextMps, switchMps);
            && Qe(e) == qe
            && NextMps(e) == nextMps
            && NextLps(e) % 128 == nextLps && NextLps(e) / 128 == switchMps
  {
    var low := switchMps * 0x80 + nextLps;
    var e := Pack(qe, nextLps, nextMps, switchMps);
    assert e == (qe * 0x100 + nextMps) * 0x100 + low;
    assert e / 0x100 == qe * 0x100 + nextMps;
  }

  const FIXED_STATE := 113

  /** One line of Table D.2. */
  datatype Row = Row(qe: nat, nextLps: nat, nextMps: nat, switchMps: nat)

  const ROWS_0: seq<Row> := [
    Row(0x5a1d, 1, 1, 1), Row(0x2586, 14, 2, 0), Row(0x1114, 16, 3, 0), Row(0x080b, 18, 4, 0),
    Row(0x03d8, 20, 5, 0), Row(0x01da, 23, 6, 0), Row(0x00e5, 25, 7, 0), Row(0x006f, 28, 8, 0),
    Row(0x0036, 30, 9, 0), Row(0x001a, 33, 10, 0), Row(0x000d, 35, 11, 0), Row(0x0006, 9, 12, 0),
    Row(0x0003, 10, 13, 0), Row(0x0001, 12, 13, 0), Row(0x5a7f, 15, 15, 1), Row(0x3f25, 36, 16, 0),
    Row(0x2cf2, 38, 17, 0), Row(0x207c, 39, 18, 0), Row(0x17b9, 40, 19, 0)
  ]

  const ROWS_1: seq<Row> := [
    Row(0x1182, 42, 20, 0), Row(0x0cef, 43, 21, 0), Row(0x09a1, 45, 22, 0), Row(0x072f, 46, 23, 0),
    Row(0x055c, 48, 24, 0), Row(0x0406, 49, 25, 0), Row(0x0303, 51, 26, 0), Row(0x0240, 52, 27, 0),
    Row(0x01b1, 54, 28, 0), Row(0x0144, 56, 29, 0), Row(0x00f5, 57, 30, 0), Row(0x00b7, 59, 31, 0),
    Row(0x008a, 60, 32, 0), Row(0x0068, 62, 33, 0), Row(0x004e, 63, 34, 0), Row(0x003b, 32, 35, 0),
    Row(0x002c, 33, 9, 0), Row(0x5ae1, 37, 37, 1), Row(0x484c, 64, 38, 0)
  ]

  const ROWS_2: seq<Row> := [
    Row(0x3a0d, 65, 39, 0), Row(0x2ef1, 67, 40, 0), Row(0x261f, 68, 41, 0), Row(0x1f33, 69, 42, 0),
    Row(0x19a8, 70, 43, 0), Row(0x1518, 72, 44, 0), Row(0x1177, 73, 45, 0), Row(0x0e74, 74, 46, 0),
    Row(0x0bfb, 75, 47, 0), Row(0x09f8, 77, 48, 0), Row(0x0861, 78, 49, 0), Row(0x0706, 79, 50, 0),
    Row(0x05cd, 48, 51, 0), Row(0x04de, 50, 52, 0), Row(0x040f, 50, 53, 0), Row(0x0363, 51, 54, 0),
    Row(0x02d4, 52, 55, 0), Row(0x025c, 53, 56, 0), Row(0x01f8, 54, 57, 0)
  ]

  const ROWS_3: seq<Row> := [
    Row(0x01a4, 55, 58, 0), Row(0x0160, 56, 59, 0), Row(0x0125, 57, 60, 0), Row(0x00f6, 58, 61, 0),
    Row(0x00cb, 59, 62, 0), Row(0x00ab, 61, 63, 0), Row(0x008f, 61, 32, 0), Row(0x5b12, 65, 65, 1),
    Row(0x4d04, 80, 66, 0), Row(0x412c, 81, 67, 0), Row(0x37d8, 82, 68, 0), Row(0x2fe8, 83, 69, 0),
    Row(0x293c, 84, 70, 0), Row(0x2379, 86, 71, 0), Row(0x1edf, 87, 72, 0), Row(0x1aa9, 87, 73, 0),
    Row(0x174e, 72, 74, 0), Row(0x1424, 72, 75, 0), Row(0x119c, 74, 76, 0)
  ]

  const ROWS_4: seq<Row> := [
    Row(0x0f6b, 74, 77, 0), Row(0x0d51, 75, 78, 0), Row(0x0bb6, 77, 79, 0), Row(0x0a40, 77, 48, 0),
    Row(0x5832, 80, 81, 1), Row(0x4d1c, 88, 82, 0), Row(0x438e, 89, 83, 0), Row(0x3bdd, 90, 84, 0),
    Row(0x34ee, 91, 85, 0), Row(0x2eae, 92, 86, 0), Row(0x299a, 93, 87, 0), Row(0x2516, 86, 71, 0),
    Row(0x5570, 88, 89, 1), Row(0x4ca9, 95, 90, 0), Row(0x44d9, 96, 91, 0), Row(0x3e22, 97, 92, 0),
    Row(0x3824, 99, 93, 0), Row(0x32b4, 99, 94, 0), Row(0x2e17, 93, 86, 0)
  ]

  const ROWS_5: seq<Row> := [
    Row(0x56a8, 95, 96, 1), Row(0x4f46, 101, 97, 0), Row(0x47e5, 102, 98, 0), Row(0x41cf, 103, 99, 0),
    Row(0x3c3d, 104, 100, 0), Row(0x375e, 99, 93, 0), Row(0x5231, 105, 102, 0), Row(0x4c0f, 106, 103, 0),
    Row(0x4639, 107, 104, 0), Row(0x415e, 103, 99, 0), Row(0x5627, 105, 106, 1), Row(0x50e7, 108, 107, 0),
    Row(0x4b85, 109, 103, 0), Row(0x5597, 110, 109, 0), Row(0x504f, 111, 107, 0), Row(0x5a10, 110, 111, 1),
    Row(0x5522, 112, 109, 0), Row(0x59eb, 112, 111, 1), Row(0x5a1d, 113, 113, 0)
  ]

  const TABLE_D2: seq<Row> := ROWS_0 + ROWS_1 + ROWS_2 + ROWS_3 + ROWS_4 + ROWS_5

  const JPEG_ARITAB: seq<nat> :=
    seq(|TABLE_D2|, i requires 0 <= i < |TABLE_D2| =>
      Pack(TABLE_D2[i].qe, TABLE_D2[i].nextLps, TABLE_D2[i].nextMps, TABLE_D2[i].switchMps))

  predicate GoodRow(row: Row) {
    1 <= row.qe < 0x8000 && row.nextLps < 114 && row.nextMps < 114 && row.switchMps <= 1
  }

  lemma RowsGood0()
    ensures |ROWS_0| == 19 && forall row :: row in ROWS_0 ==> GoodRow(row)
  {
  }

  lemma RowsGood1()
    ensures |ROWS_1| == 19 && forall row :: row in ROWS_1 ==> GoodRow(row)
  {
  }

  lemma RowsGood2()
    ensures |ROWS_2| == 19 && forall row :: row in ROWS_2 ==> GoodRow(row)
  {
  }

  lemma RowsGood3()
    ensures |ROWS_3| == 19 && forall row :: row in ROWS_3 ==> GoodRow(row)
  {
  }

  lemma RowsGood4()
    ensures |ROWS_4| == 19 && forall row :: row in ROWS_4 ==> GoodRow(row)
  {
  }

  lemma RowsGood5()
    ensures |ROWS_5| == 19 && forall row :: row in ROWS_5 ==> GoodRow(row)
  {
  }

  lemma LastRow()
    ensures |ROWS_5| == 19 && ROWS_5[18] == Row(0x5a1d, 113, 113, 0)
  {
  }

  lemma RowsGood()
    ensures |TABLE_D2| == 114 && TABLE_D2[FIXED_STATE] == Row(0x5a1d, 113, 113, 0)
    ensures forall row :: row in TABLE_D2 ==> GoodRow(row)
  {
    hide ROWS_0, ROWS_1, ROWS_2, ROWS_3, ROWS_4, ROWS_5;
    RowsGood0(); RowsGood1(); RowsGood2(); RowsGood3(); RowsGood4(); RowsGood5();
    LastRow();
  }

  /** The table of the repository is usable, and its last entry is the fixed
      estimate 0.5 that never moves. */
  lemma AritabValid()
    ensures |JPEG_ARITAB| == 114 && ValidTable(JPEG_ARITAB)
    ensures NextLps(JPEG_ARITAB[FIXED_STATE]) == NextMps(JPEG_ARITAB[FIXED_STATE]) == FIXED_STATE
  {
    hide TABLE_D2;
    RowsGood();
    forall i | 0 <= i < 114
      ensures GoodEntry(JPEG_ARITAB[i], 114)
    {
      var row := TABLE_D2[i];
      assert row in TABLE_D2;
      Unpack(row.qe, row.nextLps, row.nextMps, row.switchMps);
    }
    Unpack(0x5a1d, 113, 113, 0);
  }
}
