/**
  The course-registration decision of algorithms/Scheduling/Main.java: build a
  flow network from the requests, run Ford-Fulkerson, and answer Yes exactly
  when every student can be given `limit` distinct requested courses.
 */
module Scheduling {
  import opened Sums
  import opened MaxFlow

  datatype Vertex = Source | Student(student: string) | Course(course: string, limit: int) | Sink {
    function Name(): string {
      match this
      case Source => "Source"
      case Student(n) => n
      case Course(n, _) => n
      case Sink => "Sink"
    }
  }

  datatype Answer = Yes | No | NullPointer

  datatype Listing = Listing(name: string, capacity: int)

  datatype Request = Request(student: string, course: string)

  // ----- The problem, without any network

  predicate Requested(requests: seq<Request>, students: seq<string>, listed: seq<Listing>, i: int, j: int)
    requires 0 <= i < |students| && 0 <= j < |listed|
  {
    Request(students[i], listed[j].name) in requests
  }

  ghost function Enrolled(a: seq<set<int>>, j: int): set<int> {
    set i | 0 <= i < |a| && j in a[i]
  }

  /** a[i] are the courses student i gets: `limit` of them, all requested, no course over capacity. */
  ghost predicate Assignment(requests: seq<Request>, students: seq<string>, listed: seq<Listing>, limit: nat, a: seq<set<int>>) {
    && |a| == |students|
    && (forall i, j :: 0 <= i < |a| && j in a[i] ==> 0 <= j < |listed| && Requested(requests, students, listed, i, j))
    && (forall i :: 0 <= i < |a| ==> |a[i]| == limit)
    && (forall j :: 0 <= j < |listed| ==> |Enrolled(a, j)| <= listed[j].capacity)
  }

  // ----- The network

  /** Students in the order in which the requests first name them. */
  method CollectStudents(requests: seq<Request>) returns (students: seq<string>)
    ensures forall i, j :: 0 <= i < j < |students| ==> students[i] != students[j]
    ensures forall x :: x in students <==> exists k :: 0 <= k < |requests| && requests[k].student == x
  {
    students := [];
    for k := 0 to |requests|
      invariant forall i, j :: 0 <= i < j < |students| ==> students[i] != students[j]
      invariant forall x :: x in students <==> exists m :: 0 <= m < k && requests[m].student == x
    {
      if requests[k].student !in students {
        students := students + [requests[k].student];
      }
    }
  }

  function Vertices(students: seq<string>, listed: seq<Listing>): (vs: seq<Vertex>) {
    [Source] + seq(|students|, i requires 0 <= i < |students| => Student(students[i]))
    + seq(|listed|, j requires 0 <= j < |listed| => Course(listed[j].name, listed[j].capacity)) + [Sink]
  }

  /** Edges are compared by the name of their target, as Vertex.equals does. */
  predicate HasEdgeTo(requests: seq<Request>, students: seq<string>, v1: Vertex, v2: Vertex) {
    match v1
    case Source => v2.Name() in students
    case Student(x) => Request(x, v2.Name()) in requests
    case Course(_, _) => v2.Name() == "Sink"
    case Sink => false
  }

  function EdgeCapacity(requests: seq<Request>, students: seq<string>, limit: int, v1: Vertex, v2: Vertex): int {
    if HasEdgeTo(requests, students, v1, v2) then
      match v1
      case Source => limit
      case Student(_) => 1
      case Course(_, c) => c
      case Sink => 0
    else 0
  }

  ghost function Network(requests: seq<Request>, students: seq<string>, listed: seq<Listing>, limit: int): (m: Matrix)
    ensures Square(m, |students| + |listed| + 2)
  {
    var vs := Vertices(students, listed);
    seq(|vs|, i requires 0 <= i < |vs| => seq(|vs|, j requires 0 <= j < |vs| => EdgeCapacity(requests, students, limit, vs[i], vs[j])))
  }

  method BuildResiduals(requests: seq<Request>, students: seq<string>, listed: seq<Listing>, limit: int)
    returns (residuals: array2<int>)
    ensures fresh(residuals)
    ensures Holds(residuals, |students| + |listed| + 2, Network(requests, students, listed, limit))
  {
    hide EdgeCapacity;
    var vs := Vertices(students, listed);
    var counter := |vs|;
    residuals := new int[counter, counter];
    for i := 0 to counter
      invariant forall k, m :: 0 <= k < i && 0 <= m < counter ==>
        residuals[k, m] == EdgeCapacity(requests, students, limit, vs[k], vs[m])
    {
      for j := 0 to counter
        invariant forall k, m :: 0 <= k < i && 0 <= m < counter ==>
          residuals[k, m] == EdgeCapacity(requests, students, limit, vs[k], vs[m])
        invariant forall m :: 0 <= m < j ==>
          residuals[i, m] == EdgeCapacity(requests, students, limit, vs[i], vs[m])
      {
        residuals[i, j] := EdgeCapacity(requests, students, limit, vs[i], vs[j]);
      }
    }
  }

  /** No two vertices share a name: the vertices are told apart by name only. */
  ghost predicate DistinctNames(requests: seq<Request>, listed: seq<Listing>) {
    && (forall i, j :: 0 <= i < j < |listed| ==> listed[i].name != listed[j].name)
    && (forall j :: 0 <= j < |listed| ==> listed[j].name != "Source" && listed[j].name != "Sink")
    && (forall k :: 0 <= k < |requests| ==> requests[k].student != "Source" && requests[k].student != "Sink")
    && (forall k :: 0 <= k < |requests| ==> requests[k].course != "Source" && requests[k].course != "Sink")
    && (forall j, k :: 0 <= j < |listed| && 0 <= k < |requests| ==> listed[j].name != requests[k].student)
    && (forall j, k :: 0 <= j < |requests| && 0 <= k < |requests| ==> requests[j].course != requests[k].student)
  }

  // ----- The network in blocks: source, students, courses, sink

  ghost predicate StudentsOf(requests: seq<Request>, students: seq<string>) {
    && (forall i, j :: 0 <= i < j < |students| ==> students[i] != students[j])
    && (forall x :: x in students <==> exists k :: 0 <= k < |requests| && requests[k].student == x)
  }

  /** Entry by entry, what the name comparisons amount to. */
  ghost function Entry(requests: seq<Request>, students: seq<string>, listed: seq<Listing>, limit: int, i: int, j: int): int
    requires 0 <= i < |students| + |listed| + 2 && 0 <= j < |students| + |listed| + 2
  {
    var st, co := |students|, |listed|;
    if i == 0 && 1 <= j <= st then limit
    else if 1 <= i <= st && st < j <= st + co && Requested(requests, students, listed, i - 1, j - 1 - st) then 1
    else if st < i <= st + co && j == st + co + 1 then listed[i - 1 - st].capacity
    else 0
  }

  lemma NetworkEntries(requests: seq<Request>, students: seq<string>, listed: seq<Listing>, limit: int, i: int, j: int)
    requires DistinctNames(requests, listed) && StudentsOf(requests, students)
    requires 0 <= i < |students| + |listed| + 2 && 0 <= j < |students| + |listed| + 2
    ensures Network(requests, students, listed, limit)[i][j] == Entry(requests, students, listed, limit, i, j)
  {
    var vs := Vertices(students, listed);
    var st, co := |students|, |listed|;
    assert vs[j].Name() in students <==> 1 <= j <= st by {
      if 1 <= j <= st {
        assert vs[j] == Student(students[j - 1]);
      } else if st < j <= st + co {
        assert vs[j].Name() == listed[j - 1 - st].name;
      }
    }
    assert vs[j].Name() == "Sink" <==> j == st + co + 1 by {
      if 1 <= j <= st {
        assert students[j - 1] in students;
      }
    }
    if 1 <= i <= st {
      assert vs[i] == Student(students[i - 1]);
      if st < j <= st + co {
        assert vs[j].Name() == listed[j - 1 - st].name;
      } else if 1 <= j <= st {
        assert vs[j].Name() == students[j - 1] && students[j - 1] in students;
      }
    }
  }

  ghost predicate IsNetwork(cap: Matrix, requests: seq<Request>, students: seq<string>, listed: seq<Listing>, limit: int) {
    var n := |students| + |listed| + 2;
    Square(cap, n) && forall i, j :: 0 <= i < n && 0 <= j < n ==> cap[i][j] == Entry(requests, students, listed, limit, i, j)
  }

  lemma RowInBlocks(row: seq<int>, st: nat, co: nat)
    requires |row| == st + co + 2
    ensures Sum(row) == row[0] + Sum(row[1..1 + st]) + Sum(row[1 + st..1 + st + co]) + row[st + co + 1]
  {
    var a, b, c, d := row[..1], row[1..1 + st], row[1 + st..1 + st + co], row[1 + st + co..];
    assert row == ((a + b) + c) + d;
    SumConcat((a + b) + c, d);
    SumConcat(a + b, c);
    SumConcat(a, b);
    assert a[..0] == [] && d[..0] == [];
  }

  // ----- From a full flow to an assignment

  /** Where the network has no edge in either direction, no flow goes. */
  lemma NoEdgeNoFlow(cap: Matrix, requests: seq<Request>, students: seq<string>, listed: seq<Listing>, limit: nat, f: Matrix, i: int, j: int)
    requires IsNetwork(cap, requests, students, listed, limit)
    requires Feasible(cap, |students| + |listed| + 2, 0, |students| + |listed| + 1, f)
    requires 0 <= i < |students| + |listed| + 2 && 0 <= j < |students| + |listed| + 2
    requires Entry(requests, students, listed, limit, i, j) == 0 == Entry(requests, students, listed, limit, j, i)
    ensures f[i][j] == 0
  {
    assert f[i][j] <= cap[i][j] && f[j][i] <= cap[j][i] && f[i][j] == -f[j][i];
  }

  lemma SourceRow(cap: Matrix, requests: seq<Request>, students: seq<string>, listed: seq<Listing>, limit: nat, f: Matrix)
    requires IsNetwork(cap, requests, students, listed, limit)
    requires Feasible(cap, |students| + |listed| + 2, 0, |students| + |listed| + 1, f)
    ensures Sum(f[0]) == Sum(f[0][1..1 + |students|])
    ensures forall i :: 1 <= i <= |students| ==> f[0][i] <= limit
  {
    var st, co := |students|, |listed|;
    RowInBlocks(f[0], st, co);
    forall j | 1 + st <= j < st + co + 2 || j == 0
      ensures f[0][j] == 0
    {
      NoEdgeNoFlow(cap, requests, students, listed, limit, f, 0, j);
    }
    SumZero(f[0][1 + st..1 + st + co]);
    assert forall i :: 1 <= i <= st ==> f[0][i] <= cap[0][i];
  }

  lemma StudentRow(cap: Matrix, requests: seq<Request>, students: seq<string>, listed: seq<Listing>, limit: nat, f: Matrix, i: int)
    requires IsNetwork(cap, requests, students, listed, limit) && 1 <= i <= |students|
    requires Feasible(cap, |students| + |listed| + 2, 0, |students| + |listed| + 1, f)
    ensures f[0][i] == Sum(f[i][1 + |students|..1 + |students| + |listed|])
  {
    var st, co := |students|, |listed|;
    RowInBlocks(f[i], st, co);
    forall j | 1 <= j <= st || j == st + co + 1
      ensures f[i][j] == 0
    {
      NoEdgeNoFlow(cap, requests, students, listed, limit, f, i, j);
    }
    SumZero(f[i][1..1 + st]);
    assert f[i][0] == -f[0][i];
  }

  /** Between a student and a course there is one unit or none, and only on a request. */
  lemma StudentEntry(cap: Matrix, requests: seq<Request>, students: seq<string>, listed: seq<Listing>, limit: nat, f: Matrix, i: int, j: int)
    requires IsNetwork(cap, requests, students, listed, limit) && 0 <= i < |students| && 0 <= j < |listed|
    requires Feasible(cap, |students| + |listed| + 2, 0, |students| + |listed| + 1, f)
    ensures f[1 + i][1 + |students| + j] == 0 || (f[1 + i][1 + |students| + j] == 1 && Requested(requests, students, listed, i, j))
  {
    var x, y := 1 + i, 1 + |students| + j;
    assert f[x][y] <= cap[x][y] && f[y][x] <= cap[y][x] && f[x][y] == -f[y][x];
  }

  lemma CourseRow(cap: Matrix, requests: seq<Request>, students: seq<string>, listed: seq<Listing>, limit: nat, f: Matrix, j: int)
    requires IsNetwork(cap, requests, students, listed, limit) && 0 <= j < |listed|
    requires Feasible(cap, |students| + |listed| + 2, 0, |students| + |listed| + 1, f)
    ensures -Sum(f[1 + |students| + j][1..1 + |students|]) <= listed[j].capacity
  {
    var st, co := |students|, |listed|;
    var k := 1 + st + j;
    RowInBlocks(f[k], st, co);
    forall m | 1 + st <= m <= st + co || m == 0
      ensures f[k][m] == 0
    {
      NoEdgeNoFlow(cap, requests, students, listed, limit, f, k, m);
    }
    SumZero(f[k][1 + st..1 + st + co]);
    assert f[k][st + co + 1] <= cap[k][st + co + 1];
  }

  ghost function Ones(row: seq<int>): set<int> {
    set j | 0 <= j < |row| && row[j] == 1
  }

  ghost function Chosen(f: Matrix, st: nat, co: nat): (a: seq<set<int>>)
    requires Square(f, st + co + 2)
    ensures |a| == st
  {
    seq(st, i requires 0 <= i < st => Ones(f[1 + i][1 + st..1 + st + co]))
  }

  lemma ChosenFillsStudent(cap: Matrix, requests: seq<Request>, students: seq<string>, listed: seq<Listing>, limit: nat, f: Matrix, i: int)
    requires IsNetwork(cap, requests, students, listed, limit) && 0 <= i < |students|
    requires Feasible(cap, |students| + |listed| + 2, 0, |students| + |listed| + 1, f)
    ensures |Chosen(f, |students|, |listed|)[i]| == f[0][1 + i]
    ensures forall j :: j in Chosen(f, |students|, |listed|)[i] ==> 0 <= j < |listed| && Requested(requests, students, listed, i, j)
  {
    var st, co := |students|, |listed|;
    StudentRow(cap, requests, students, listed, limit, f, 1 + i);
    var row := f[1 + i][1 + st..1 + st + co];
    forall j | 0 <= j < co
      ensures row[j] == 0 || (row[j] == 1 && Requested(requests, students, listed, i, j))
    {
      StudentEntry(cap, requests, students, listed, limit, f, i, j);
    }
    SumOfIndicator(row, Ones(row));
  }

  /** A column of minus ones counts the students who chose the course. */
  lemma ColumnCount(row: seq<int>, a: seq<set<int>>, j: int)
    requires |row| == |a| && forall i :: 0 <= i < |a| ==> -row[i] == if j in a[i] then 1 else 0
    ensures |Enrolled(a, j)| == -Sum(row)
  {
    var col := seq(|a|, i requires 0 <= i < |a| => -row[i]);
    SumNegated(row, col);
    SumOfIndicator(col, Enrolled(a, j));
  }

  lemma ChosenFitsCourse(cap: Matrix, requests: seq<Request>, students: seq<string>, listed: seq<Listing>, limit: nat, f: Matrix, j: int)
    requires IsNetwork(cap, requests, students, listed, limit) && 0 <= j < |listed|
    requires Feasible(cap, |students| + |listed| + 2, 0, |students| + |listed| + 1, f)
    ensures |Enrolled(Chosen(f, |students|, |listed|), j)| <= listed[j].capacity
  {
    var st, co := |students|, |listed|;
    var a := Chosen(f, st, co);
    assert Square(f, st + co + 2);
    CourseRow(cap, requests, students, listed, limit, f, j);
    hide IsNetwork, Feasible, Requested, Entry;
    var row := f[1 + st + j][1..1 + st];
    forall i | 0 <= i < st
      ensures -row[i] == if j in a[i] then 1 else 0
    {
      ColumnEntry(cap, requests, students, listed, limit, f, i, j);
    }
    hide Chosen;
    ColumnCount(row, a, j);
  }

  lemma ColumnEntry(cap: Matrix, requests: seq<Request>, students: seq<string>, listed: seq<Listing>, limit: nat, f: Matrix, i: int, j: int)
    requires IsNetwork(cap, requests, students, listed, limit) && 0 <= i < |students| && 0 <= j < |listed|
    requires Feasible(cap, |students| + |listed| + 2, 0, |students| + |listed| + 1, f)
    ensures -f[1 + |students| + j][1..1 + |students|][i] == if j in Chosen(f, |students|, |listed|)[i] then 1 else 0
  {
    StudentEntry(cap, requests, students, listed, limit, f, i, j);
    AntisymmetricEntry(cap, |f|, f, 1 + i, 1 + |students| + j);
  }

  lemma AntisymmetricEntry(cap: Matrix, n: nat, f: Matrix, i: int, j: int)
    requires n >= 2 && Square(cap, n) && Feasible(cap, n, 0, n - 1, f) && 0 <= i < n && 0 <= j < n
    ensures f[i][j] == -f[j][i]
  {
  }

  lemma FlowGivesAssignment(cap: Matrix, requests: seq<Request>, students: seq<string>, listed: seq<Listing>, limit: nat, f: Matrix)
    requires IsNetwork(cap, requests, students, listed, limit)
    requires Feasible(cap, |students| + |listed| + 2, 0, |students| + |listed| + 1, f)
    requires Sum(f[0]) == |students| * limit
    ensures Assignment(requests, students, listed, limit, Chosen(f, |students|, |listed|))
  {
    var st, co := |students|, |listed|;
    var a := Chosen(f, st, co);
    SourceRow(cap, requests, students, listed, limit, f);
    SumAtMost(f[0][1..1 + st], limit);
    forall i | 0 <= i < st
      ensures |a[i]| == limit
      ensures forall j :: j in a[i] ==> 0 <= j < co && Requested(requests, students, listed, i, j)
    {
      assert f[0][1..1 + st][i] == f[0][1 + i];
      ChosenFillsStudent(cap, requests, students, listed, limit, f, i);
    }
    forall j | 0 <= j < co
      ensures |Enrolled(a, j)| <= listed[j].capacity
    {
      ChosenFitsCourse(cap, requests, students, listed, limit, f, j);
    }
  }

  // ----- From an assignment to a full flow

  ghost function Mark(s: set<int>, j: int): int { if j in s then 1 else 0 }

  /** The flow that sends one unit along every chosen pair. */
  ghost function FlowEntry(a: seq<set<int>>, co: nat, limit: int, i: int, j: int): int {
    var st := |a|;
    if i == 0 && 1 <= j <= st then limit
    else if j == 0 && 1 <= i <= st then -limit
    else if 1 <= i <= st && st < j <= st + co then Mark(a[i - 1], j - 1 - st)
    else if 1 <= j <= st && st < i <= st + co then -Mark(a[j - 1], i - 1 - st)
    else if st < i <= st + co && j == st + co + 1 then |Enrolled(a, i - 1 - st)|
    else if st < j <= st + co && i == st + co + 1 then -|Enrolled(a, j - 1 - st)|
    else 0
  }

  ghost function FlowFor(a: seq<set<int>>, co: nat, limit: int): (f: Matrix)
    ensures Square(f, |a| + co + 2)
    ensures forall i, j :: 0 <= i < |a| + co + 2 && 0 <= j < |a| + co + 2 ==> f[i][j] == FlowEntry(a, co, limit, i, j)
  {
    var n := |a| + co + 2;
    seq(n, i requires 0 <= i < n => seq(n, j requires 0 <= j < n => FlowEntry(a, co, limit, i, j)))
  }

  lemma FlowForStudent(a: seq<set<int>>, co: nat, limit: nat, i: nat)
    requires i < |a| && |a[i]| == limit && forall j :: j in a[i] ==> 0 <= j < co
    ensures Sum(FlowFor(a, co, limit)[1 + i]) == 0
  {
    var st := |a|;
    var row := FlowFor(a, co, limit)[1 + i];
    RowInBlocks(row, st, co);
    SumZero(row[1..1 + st]);
    SumOfIndicator(row[1 + st..1 + st + co], a[i]);
  }

  lemma CourseMarks(row: seq<int>, a: seq<set<int>>, j: int)
    requires |row| == |a| && forall i :: 0 <= i < |a| ==> row[i] == -Mark(a[i], j)
    ensures Sum(row) == -|Enrolled(a, j)|
  {
    var marks := seq(|a|, i requires 0 <= i < |a| => Mark(a[i], j));
    SumOfIndicator(marks, Enrolled(a, j));
    SumNegated(marks, row);
  }

  lemma FlowForCourse(a: seq<set<int>>, co: nat, limit: nat, j: nat)
    requires j < co
    ensures Sum(FlowFor(a, co, limit)[1 + |a| + j]) == 0
  {
    var st := |a|;
    var row := FlowFor(a, co, limit)[1 + st + j];
    assert row[0] == 0 && row[st + co + 1] == |Enrolled(a, j)|;
    assert forall i {:trigger row[1..1 + st][i]} :: 0 <= i < st ==> row[1..1 + st][i] == -Mark(a[i], j);
    assert forall i {:trigger row[1 + st..1 + st + co][i]} :: 0 <= i < co ==> row[1 + st..1 + st + co][i] == 0;
    hide FlowFor, FlowEntry;
    RowInBlocks(row, st, co);
    SumZero(row[1 + st..1 + st + co]);
    CourseMarks(row[1..1 + st], a, j);
  }

  lemma FlowForWithinCapacity(cap: Matrix, requests: seq<Request>, students: seq<string>, listed: seq<Listing>, limit: nat, a: seq<set<int>>, i: int, j: int)
    requires IsNetwork(cap, requests, students, listed, limit)
    requires Assignment(requests, students, listed, limit, a)
    requires 0 <= i < |students| + |listed| + 2 && 0 <= j < |students| + |listed| + 2
    requires forall j :: 0 <= j < |listed| ==> 0 <= listed[j].capacity
    ensures FlowEntry(a, |listed|, limit, i, j) <= cap[i][j]
  {
  }

  lemma AssignmentGivesFlow(cap: Matrix, requests: seq<Request>, students: seq<string>, listed: seq<Listing>, limit: nat, a: seq<set<int>>)
    requires IsNetwork(cap, requests, students, listed, limit)
    requires Assignment(requests, students, listed, limit, a)
    requires forall j :: 0 <= j < |listed| ==> 0 <= listed[j].capacity
    ensures Feasible(cap, |students| + |listed| + 2, 0, |students| + |listed| + 1, FlowFor(a, |listed|, limit))
    ensures Sum(FlowFor(a, |listed|, limit)[0]) == |students| * limit
  {
    var st, co := |students|, |listed|;
    var n := st + co + 2;
    var f := FlowFor(a, co, limit);
    forall k | 0 < k < n - 1
      ensures Sum(f[k]) == 0
    {
      if k <= st {
        FlowForStudent(a, co, limit, k - 1);
      } else {
        FlowForCourse(a, co, limit, k - 1 - st);
      }
    }
    forall i, j | 0 <= i < n && 0 <= j < n
      ensures f[i][j] <= cap[i][j]
    {
      FlowForWithinCapacity(cap, requests, students, listed, limit, a, i, j);
    }
    FlowForSource(a, co, limit);
  }

  lemma FlowForSource(a: seq<set<int>>, co: nat, limit: nat)
    ensures Sum(FlowFor(a, co, limit)[0]) == |a| * limit
  {
    var st, row := |a|, FlowFor(a, co, limit)[0];
    RowInBlocks(row, st, co);
    SumConstant(row[1..1 + st], limit);
    SumZero(row[1 + st..1 + st + co]);
  }

  /** No flow can exceed what the source offers: every student's limit. */
  lemma SourceBound(cap: Matrix, requests: seq<Request>, students: seq<string>, listed: seq<Listing>, limit: nat, f: Matrix)
    requires IsNetwork(cap, requests, students, listed, limit)
    requires Feasible(cap, |students| + |listed| + 2, 0, |students| + |listed| + 1, f)
    ensures Sum(f[0]) <= |students| * limit
  {
    SourceRow(cap, requests, students, listed, limit, f);
    SumAtMost(f[0][1..1 + |students|], limit);
  }

  /** A maximum flow fills the source exactly when an assignment exists. */
  lemma FullFlowIffAssignment(cap: Matrix, requests: seq<Request>, students: seq<string>, listed: seq<Listing>, limit: nat, f: Matrix)
    requires IsNetwork(cap, requests, students, listed, limit)
    requires Feasible(cap, |students| + |listed| + 2, 0, |students| + |listed| + 1, f)
    requires forall j :: 0 <= j < |listed| ==> 0 <= listed[j].capacity
    requires forall g :: Feasible(cap, |students| + |listed| + 2, 0, |students| + |listed| + 1, g) ==> Sum(g[0]) <= Sum(f[0])
    ensures Sum(f[0]) == |students| * limit <==> exists a :: Assignment(requests, students, listed, limit, a)
  {
    SourceBound(cap, requests, students, listed, limit, f);
    if Sum(f[0]) == |students| * limit {
      FlowGivesAssignment(cap, requests, students, listed, limit, f);
    }
    forall a | Assignment(requests, students, listed, limit, a)
      ensures Sum(f[0]) == |students| * limit
    {
      AssignmentGivesFlow(cap, requests, students, listed, limit, a);
    }
  }

  // ----- The decision

  ghost predicate FitsInt(students: seq<string>, listed: seq<Listing>, limit: nat) {
    && limit <= MAX_INT && |students| * limit <= MAX_INT
    && forall j :: 0 <= j < |listed| ==> 0 <= listed[j].capacity <= MAX_INT
  }

  lemma NetworkIsSafe(cap: Matrix, requests: seq<Request>, students: seq<string>, listed: seq<Listing>, limit: nat)
    requires IsNetwork(cap, requests, students, listed, limit) && FitsInt(students, listed, limit)
    ensures NoOverflow(cap, |students| + |listed| + 2) && Sum(cap[0]) <= MAX_INT
  {
    var st, co := |students|, |listed|;
    RowInBlocks(cap[0], st, co);
    SumConstant(cap[0][1..1 + st], limit);
    SumZero(cap[0][1 + st..1 + st + co]);
  }

  /** A listed course nobody asked for: courses.get returns null for it. */
  ghost predicate Unrequested(requests: seq<Request>, l: Listing) {
    forall k :: 0 <= k < |requests| ==> requests[k].course != l.name
  }

  method HasUnrequested(requests: seq<Request>, listed: seq<Listing>) returns (b: bool)
    ensures b <==> exists j :: 0 <= j < |listed| && Unrequested(requests, listed[j])
  {
    var courses := set k | 0 <= k < |requests| :: requests[k].course;
    for j := 0 to |listed|
      invariant forall m :: 0 <= m < j ==> listed[m].name in courses
    {
      if listed[j].name !in courses {
        assert Unrequested(requests, listed[j]);
        return true;
      }
    }
    b := false;
  }

  lemma NetworkIs(cap: Matrix, requests: seq<Request>, students: seq<string>, listed: seq<Listing>, limit: nat)
    requires cap == Network(requests, students, listed, limit)
    requires DistinctNames(requests, listed) && StudentsOf(requests, students) && FitsInt(students, listed, limit)
    ensures IsNetwork(cap, requests, students, listed, limit)
    ensures forall i, j :: 0 <= i < |students| + |listed| + 2 && 0 <= j < |students| + |listed| + 2 ==> 0 <= cap[i][j]
  {
    var counter := |students| + |listed| + 2;
    forall i, j | 0 <= i < counter && 0 <= j < counter
      ensures cap[i][j] == Entry(requests, students, listed, limit, i, j)
    {
      NetworkEntries(requests, students, listed, limit, i, j);
    }
  }

  /** Builds the network, runs the search and returns its value. */
  method MaximumFlow(requests: seq<Request>, students: seq<string>, listed: seq<Listing>, limit: nat)
    returns (maxFlow: int, ghost cap: Matrix, ghost f: Matrix)
    requires DistinctNames(requests, listed) && StudentsOf(requests, students) && FitsInt(students, listed, limit)
    ensures IsNetwork(cap, requests, students, listed, limit)
    ensures Feasible(cap, |students| + |listed| + 2, 0, |students| + |listed| + 1, f) && Sum(f[0]) == maxFlow
    ensures forall g :: Feasible(cap, |students| + |listed| + 2, 0, |students| + |listed| + 1, g) ==> Sum(g[0]) <= maxFlow
  {
    var residuals := BuildResiduals(requests, students, listed, limit);
    var counter := |students| + |listed| + 2;
    cap := Network(requests, students, listed, limit);
    NetworkIs(cap, requests, students, listed, limit);
    NetworkIsSafe(cap, requests, students, listed, limit);
    var path := new int[counter];
    ghost var res;
    hide *;
    maxFlow, res := FordFulkerson(counter, residuals, path, 0, |students| + |listed| + 1, cap);
    f := FlowOf(res, cap, counter);
    CutIsFlow(cap, counter, 0, |students| + |listed| + 1, f, maxFlow);
  }

  /** One case of the input. */
  method Decide(requests: seq<Request>, listed: seq<Listing>, limit: nat) returns (answer: Answer, students: seq<string>)
    requires DistinctNames(requests, listed)
    requires forall students :: StudentsOf(requests, students) ==> FitsInt(students, listed, limit)
    ensures StudentsOf(requests, students)
    ensures answer == NullPointer <==> exists j :: 0 <= j < |listed| && Unrequested(requests, listed[j])
    ensures answer != NullPointer ==> (answer == Yes <==> exists a :: Assignment(requests, students, listed, limit, a))
  {
    students := CollectStudents(requests);
    assert StudentsOf(requests, students);
    var missing := HasUnrequested(requests, listed);
    if missing {
      return NullPointer, students;
    }
    var maxFlow, cap, f := MaximumFlow(requests, students, listed, limit);
    FullFlowIffAssignment(cap, requests, students, listed, limit, f);
    answer := if maxFlow == |students| * limit then Yes else No;
  }
}
