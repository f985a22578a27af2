/** The two loops of the utility script: the even-product multiplication
    table, and counting the students with grade A. */
module Utill {
  import opened Seqs

  /** A printed line `i x j = p`, as the triple (i, j, p). */
  type Line = (int, int, int)

  /** The lines printed for multiplicand `i` and multipliers 1 .. j-1. */
  function RowUpTo(i: int, j: int): seq<Line>
    requires 1 <= j <= 13
  {
    if j == 1 then []
    else RowUpTo(i, j - 1) + (if (i * (j - 1)) % 2 == 0 then [(i, j - 1, i * (j - 1))] else [])
  }

  /** The lines of `print_mult_table` for the multiplicands a .. i-1. */
  function MultTable(a: int, i: int): seq<Line>
    decreases i - a
  {
    if i <= a then [] else MultTable(a, i - 1) + RowUpTo(i - 1, 13)
  }

  /** `print_mult_table(a, b)`: for i in a..b and j in 1..12, the lines whose
      product is even, in loop order. */
  method PrintMultTable(a: int, b: int) returns (lines: seq<Line>)
    ensures lines == MultTable(a, b + 1)
  {
    lines := [];
    var i := a;
    while i <= b
      invariant a <= i && (i <= b + 1 || i == a)
      invariant lines == MultTable(a, i)
      decreases b - i
    {
      for j := 1 to 13
        invariant lines == MultTable(a, i) + RowUpTo(i, j)
      {
        if (i * j) % 2 == 0 {
          lines := lines + [(i, j, i * j)];
        }
      }
      i := i + 1;
    }
  }

  /** `(i * j) % 2` is 0 exactly when one factor is even (Python's `%` and
      Dafny's agree for the divisor 2). */
  lemma ProductParity(i: int, j: int)
    ensures (i * j) % 2 == 0 <==> i % 2 == 0 || j % 2 == 0
  {
    var q, r := i / 2, i % 2;
    var s, u := j / 2, j % 2;
    assert i == 2 * q + r && j == 2 * s + u;
    var k := 2 * q * s + q * u + r * s;
    assert i * j == 2 * k + r * u;
    var m := if r == 1 && u == 1 then 1 else 0;
    assert r * u == m;
    OffsetParity(k, m);
  }

  lemma OffsetParity(k: int, m: int)
    requires 0 <= m < 2
    ensures (2 * k + m) % 2 == m
  {
  }

  lemma {:induction false} RowMembers(i: int, j: int, line: Line)
    requires 1 <= j <= 13
    ensures line in RowUpTo(i, j) <==>
      line.0 == i && 1 <= line.1 < j && (i * line.1) % 2 == 0 && line.2 == i * line.1
  {
    if j > 1 {
      RowMembers(i, j - 1, line);
    }
  }

  /** A line is printed iff a <= i <= b, 1 <= j <= 12, and i*j is even; the
      product printed is then i*j. */
  lemma {:induction false} MultTableMembers(a: int, b: int, line: Line)
    ensures line in MultTable(a, b + 1) <==>
      && a <= line.0 <= b && 1 <= line.1 <= 12
      && (line.0 * line.1) % 2 == 0 && line.2 == line.0 * line.1
    decreases b + 1 - a
  {
    RowMembers(b, 13, line);
    if b + 1 > a {
      MultTableMembers(a, b - 1, line);
    }
  }

  /** (i, j) before (i', j') in the order the nested loops visit them. */
  predicate Before(x: Line, y: Line) {
    x.0 < y.0 || (x.0 == y.0 && x.1 < y.1)
  }

  predicate InLoopOrder(s: seq<Line>) {
    forall k, l :: 0 <= k < l < |s| ==> Before(s[k], s[l])
  }

  lemma ConcatInOrder(s: seq<Line>, t: seq<Line>)
    requires InLoopOrder(s) && InLoopOrder(t)
    requires forall x, y :: x in s && y in t ==> Before(x, y)
    ensures InLoopOrder(s + t)
  {
    var st := s + t;
    forall k, l | 0 <= k < l < |st| ensures Before(st[k], st[l]) {
      if k < |s| && l >= |s| {
        assert st[k] in s && st[l] == t[l - |s|];
      } else if k >= |s| {
        assert st[k] == t[k - |s|] && st[l] == t[l - |s|];
      }
    }
  }

  lemma {:induction false} RowInOrder(i: int, j: int)
    requires 1 <= j <= 13
    ensures InLoopOrder(RowUpTo(i, j))
  {
    if j > 1 {
      RowInOrder(i, j - 1);
      forall x | x in RowUpTo(i, j - 1) ensures x.0 == i && x.1 < j - 1 {
        RowMembers(i, j - 1, x);
      }
      ConcatInOrder(RowUpTo(i, j - 1), if (i * (j - 1)) % 2 == 0 then [(i, j - 1, i * (j - 1))] else []);
    }
  }

  /** The lines come in increasing (i, j) order: i ascending, and j ascending
      within one i. */
  lemma {:induction false} MultTableInOrder(a: int, i: int)
    ensures InLoopOrder(MultTable(a, i))
    decreases i - a
  {
    if i > a {
      MultTableInOrder(a, i - 1);
      RowInOrder(i - 1, 13);
      forall x, y | x in MultTable(a, i - 1) && y in RowUpTo(i - 1, 13) ensures Before(x, y) {
        MultTableMembers(a, i - 2, x);
        RowMembers(i - 1, 13, y);
      }
      ConcatInOrder(MultTable(a, i - 1), RowUpTo(i - 1, 13));
    }
  }

  lemma {:induction false} RowLength(i: int, j: int)
    requires 1 <= j <= 13
    ensures |RowUpTo(i, j)| == if i % 2 == 0 then j - 1 else (j - 1) / 2
  {
    if j > 1 {
      RowLength(i, j - 1);
      ProductParity(i, j - 1);
    }
  }

  /** Twelve lines for an even multiplicand, six for an odd one. */
  lemma LinesPerMultiplicand(i: int)
    ensures |RowUpTo(i, 13)| == if i % 2 == 0 then 12 else 6
  {
    RowLength(i, 13);
  }

  /** An empty range of multiplicands prints nothing. */
  lemma EmptyRange(a: int, b: int)
    requires a > b
    ensures MultTable(a, b + 1) == []
  {
  }

  /** Each pair of consecutive multiplicands prints 18 lines. */
  lemma {:induction false} PairsOfRows(a: int, n: nat)
    ensures |MultTable(a, a + 2 * n)| == 18 * n
  {
    if n > 0 {
      PairsOfRows(a, n - 1);
      var m := a + 2 * (n - 1);
      assert MultTable(a, m + 2) == MultTable(a, m) + RowUpTo(m, 13) + RowUpTo(m + 1, 13);
      LinesPerMultiplicand(m);
      LinesPerMultiplicand(m + 1);
    }
  }

  /** The script's call `print_mult_table(5, 20)` prints 144 lines. */
  lemma ScriptTableLength()
    ensures |MultTable(5, 21)| == 144
  {
    PairsOfRows(5, 8);
  }

  /** One entry of the `students` list. */
  datatype Student = Student(name: string, grade: string)

  /** The hard-coded `students` list. */
  const Students: seq<Student> := [
    Student("Mark", "A"), Student("John", "B"), Student("Peter", "C"), Student("Mary", "A")]

  predicate HasGradeA(s: Student) {
    s.grade == "A"
  }

  /** The students with grade A, counted. */
  function CountGradeA(students: seq<Student>): (n: nat)
    ensures n <= |students|
  {
    |Where(students, HasGradeA)|
  }

  /** The `count_A` loop: one increment per student whose grade is "A". */
  method CountA(students: seq<Student>) returns (count: nat)
    ensures count == CountGradeA(students)
  {
    count := 0;
    for k := 0 to |students|
      invariant count == CountGradeA(students[..k])
    {
      assert students[..k + 1] == students[..k] + [students[k]];
      WhereAppend(students[..k], [students[k]], HasGradeA);
      if students[k].grade == "A" {
        count := count + 1;
      }
    }
    assert students[..|students|] == students;
  }

  lemma {:induction false} IncreasingCard(idx: seq<int>)
    requires forall k, l :: 0 <= k < l < |idx| ==> idx[k] < idx[l]
    ensures |set x | x in idx| == |idx|
  {
    if idx != [] {
      IncreasingCard(idx[1..]);
      assert (set x | x in idx) == {idx[0]} + (set x | x in idx[1..]);
      assert idx[0] !in (set x | x in idx[1..]);
    }
  }

  /** The count is the number of positions holding a grade-A student. */
  lemma CountGradeAPositions(students: seq<Student>)
    ensures CountGradeA(students) == |set k | 0 <= k < |students| && students[k].grade == "A"|
  {
    var idx := WhereSubsequence(students, HasGradeA);
    IncreasingCard(idx);
    assert (set x | x in idx) == set k | 0 <= k < |students| && students[k].grade == "A";
  }

  /** The script's list has two grade-A students (Mark and Mary). */
  lemma ScriptCount()
    ensures CountGradeA(Students) == 2
  {
    assert Students[1].grade != "A" && Students[2].grade != "A";
    assert Where(Students, HasGradeA) == [Students[0], Students[3]];
  }

  /** The script: counts the grade-A students of the hard-coded list. */
  method CountAScript() returns (count: nat)
    ensures count == 2
  {
    count := CountA(Students);
    ScriptCount();
  }
}
