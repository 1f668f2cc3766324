/** `JIEQI_24`: the 24 solar terms in the order the generator emits them, from Minor Cold. */
module SolarTerms {

  /** A solar term: its name and the ecliptic longitude, in degrees, that marks it. */
  datatype Term = Term(name: string, degree: int)

  const Jieqi24: seq<Term> := [
    Term("소한", 285), Term("대한", 300), Term("입춘", 315), Term("우수", 330),
    Term("경칩", 345), Term("춘분", 0),   Term("청명", 15),  Term("곡우", 30),
    Term("입하", 45),  Term("소만", 60),  Term("망종", 75),  Term("하지", 90),
    Term("소서", 105), Term("대서", 120), Term("입추", 135), Term("처서", 150),
    Term("백로", 165), Term("추분", 180), Term("한로", 195), Term("상강", 210),
    Term("입동", 225), Term("소설", 240), Term("대설", 255), Term("동지", 270)
  ]

  /** The degree of entry i, in closed form: 285 plus i steps of 15, modulo 360. */
  function DegreeAt(i: int): int {
    (285 + 15 * i) % 360
  }

  /** Position in the table of the term at a given degree. */
  function TermIndex(degree: int): int {
    ((degree + 75) % 360) / 15
  }

  /** Entry i sits at (285 + 15 i) mod 360. */
  lemma DegreeOfEntry(i: int)
    requires 0 <= i < |Jieqi24|
    ensures Jieqi24[i].degree == DegreeAt(i)
  {
    DegreeAtClosed(i);
    EntryClosed(i);
  }

  /** The table's entries, read without the reduction modulo 360. */
  lemma EntryClosed(i: int)
    requires 0 <= i < |Jieqi24|
    ensures Jieqi24[i].degree == if i < 5 then 285 + 15 * i else 15 * i - 75
  {
  }

  /** DegreeAt without the reduction: the first five entries are not yet past 360. */
  lemma DegreeAtClosed(i: int)
    requires 0 <= i < 24
    ensures DegreeAt(i) == if i < 5 then 285 + 15 * i else 15 * i - 75
  {
    var x := 285 + 15 * i;
    if i < 5 {
      assert 0 <= x < 360;
    } else {
      assert 360 <= x < 720 && x - 360 == 15 * i - 75;
    }
  }

  /** The table has 24 entries, starting at 285 degrees, entry i at (285 + 15 i) mod 360. */
  lemma TableDegrees()
    ensures |Jieqi24| == 24 && Jieqi24[0].degree == 285
    ensures forall i :: 0 <= i < |Jieqi24| ==> Jieqi24[i].degree == DegreeAt(i)
  {
    forall i | 0 <= i < |Jieqi24|
      ensures Jieqi24[i].degree == DegreeAt(i)
    {
      DegreeOfEntry(i);
    }
  }

  /** Consecutive positions are 15 degrees apart, modulo 360. */
  lemma DegreeAtStep(i: int)
    requires 0 < i < 24
    ensures DegreeAt(i) == (DegreeAt(i - 1) + 15) % 360
  {
    DegreeAtClosed(i);
    DegreeAtClosed(i - 1);
    if i == 5 {
      assert DegreeAt(i - 1) + 15 == 360;
    } else {
      assert 0 <= DegreeAt(i - 1) + 15 < 360;
    }
  }

  /** Each entry is 15 degrees past the previous one, modulo 360. */
  lemma TableSteps()
    ensures forall i :: 0 < i < |Jieqi24| ==> Jieqi24[i].degree == (Jieqi24[i - 1].degree + 15) % 360
  {
    TableDegrees();
    forall i | 0 < i < 24
      ensures DegreeAt(i) == (DegreeAt(i - 1) + 15) % 360
    {
      DegreeAtStep(i);
    }
  }

  /** Each position's degree is a multiple of 15 in [0, 345], and TermIndex gives the position back. */
  lemma TermIndexOfDegreeAt(i: int)
    requires 0 <= i < 24
    ensures 0 <= DegreeAt(i) <= 345 && DegreeAt(i) % 15 == 0 && TermIndex(DegreeAt(i)) == i
  {
    DegreeAtClosed(i);
    var d := DegreeAt(i);
    if i < 5 {
      assert d == 15 * (19 + i);
      assert 360 <= d + 75 < 720 && (d + 75) % 360 == 15 * i;
    } else {
      assert d == 15 * (i - 5);
      assert 0 <= d + 75 < 360 && (d + 75) % 360 == 15 * i;
    }
  }

  /** Each degree is a multiple of 15 in [0, 345], and TermIndex recovers its position. */
  lemma TermIndexInverts()
    ensures forall i :: 0 <= i < |Jieqi24| ==>
      0 <= Jieqi24[i].degree <= 345 && Jieqi24[i].degree % 15 == 0 && TermIndex(Jieqi24[i].degree) == i
  {
    TableDegrees();
    forall i | 0 <= i < 24
      ensures 0 <= DegreeAt(i) <= 345 && DegreeAt(i) % 15 == 0 && TermIndex(DegreeAt(i)) == i
    {
      TermIndexOfDegreeAt(i);
    }
  }

  /** Every multiple of 15 in [0, 345] is the degree of the entry TermIndex names. */
  lemma EveryMultipleOf15Listed(d: int)
    requires 0 <= d <= 345 && d % 15 == 0
    ensures 0 <= TermIndex(d) < |Jieqi24| && Jieqi24[TermIndex(d)].degree == d
  {
    var k := d / 15;
    assert d == 15 * k && 0 <= k < 24;
    var i := if k < 19 then k + 5 else k - 19;
    DegreeAtClosed(i);
    TermIndexOfDegreeAt(i);
    DegreeOfEntry(i);
  }

  /** No degree occurs twice. */
  lemma DegreesDistinct()
    ensures forall i, j :: 0 <= i < j < |Jieqi24| ==> Jieqi24[i].degree != Jieqi24[j].degree
  {
    TermIndexInverts();
  }

  /** No name occurs twice. */
  lemma NamesDistinct()
    ensures forall i, j :: 0 <= i < j < |Jieqi24| ==> Jieqi24[i].name != Jieqi24[j].name
  {
  }
}
