/** The pure parts of the board component (frontend/src/App.jsx): the intents a
    session emits, the per-column views, and the progress percentage. */
module Board {
  import opened Tasks

  /** The column every new task starts in. */
  const InitialColumn: string := "Todo"

  /** The column counted as finished by the progress bar. */
  const DoneColumn: string := "Done"

  /** The columns the board renders, in order. */
  const Columns: seq<string> := ["Todo", "In Progress", "Done"]

  // ---------------------------------------------------------------------------
  // String.prototype.trim

  /** The characters `trim()` strips: ECMAScript's WhiteSpace (tab, vertical tab,
      form feed, space, no-break space, the byte order mark and the other
      space separators of Unicode) and LineTerminator (LF, CR, U+2028, U+2029). */
  predicate IsJsWhitespace(c: char)
  {
    var n := c as int;
    n == 0x09 || n == 0x0A || n == 0x0B || n == 0x0C || n == 0x0D || n == 0x20 ||
    n == 0xA0 || n == 0x1680 || (0x2000 <= n <= 0x200A) || n == 0x2028 || n == 0x2029 ||
    n == 0x202F || n == 0x205F || n == 0x3000 || n == 0xFEFF
  }

  /** Every character of `s` is whitespace (the empty string included). */
  predicate IsBlank(s: string)
  {
    forall i :: 0 <= i < |s| ==> IsJsWhitespace(s[i])
  }

  /** `s` with its leading whitespace removed. */
  function TrimStart(s: string): (r: string)
    ensures |r| <= |s| && r == s[|s| - |r|..] && IsBlank(s[..|s| - |r|])
    ensures r == [] || !IsJsWhitespace(r[0])
  {
    if s != [] && IsJsWhitespace(s[0]) then TrimStart(s[1..]) else s
  }

  /** `s` with its trailing whitespace removed. */
  function TrimEnd(s: string): (r: string)
    ensures |r| <= |s| && r == s[..|r|] && IsBlank(s[|r|..])
    ensures r == [] || !IsJsWhitespace(r[|r| - 1])
  {
    if s != [] && IsJsWhitespace(s[|s| - 1]) then TrimEnd(s[..|s| - 1]) else s
  }

  /** `s.trim()`. */
  function Trim(s: string): string
  {
    TrimEnd(TrimStart(s))
  }

  /** `s.trim()` is the slice of `s` left once the whitespace on both ends is
      cut; it starts and ends with a character that is not whitespace. */
  lemma TrimIsSlice(s: string)
    ensures var r := Trim(s);
            exists i :: 0 <= i <= |s| - |r| && r == s[i..i + |r|] &&
                        IsBlank(s[..i]) && IsBlank(s[i + |r|..])
    ensures var r := Trim(s);
            r == [] || (!IsJsWhitespace(r[0]) && !IsJsWhitespace(r[|r| - 1]))
  {
    BothEndsCut(s, TrimStart(s), Trim(s));
  }

  /** Whitespace cut off the front of `s`, giving `u`, and then off the back
      of `u`, giving `r`, leaves `r` as a slice of `s` between two blank parts. */
  lemma BothEndsCut(s: string, u: string, r: string)
    requires |u| <= |s| && u == s[|s| - |u|..] && IsBlank(s[..|s| - |u|])
    requires u == [] || !IsJsWhitespace(u[0])
    requires |r| <= |u| && r == u[..|r|] && IsBlank(u[|r|..])
    ensures exists i :: 0 <= i <= |s| - |r| && r == s[i..i + |r|] &&
                        IsBlank(s[..i]) && IsBlank(s[i + |r|..])
    ensures r == [] || !IsJsWhitespace(r[0])
  {
    var i := |s| - |u|;
    assert s[i + |r|..] == u[|r|..];
    assert r == s[i..i + |r|];
    assert r != [] ==> r[0] == u[0];
  }

  /** `s.trim()` is empty exactly when `s` is all whitespace. */
  lemma TrimEmptyIffBlank(s: string)
    ensures Trim(s) == [] <==> IsBlank(s)
  {
    var u := TrimStart(s);
    assert u == [] ==> s[..|s|] == s;
    assert u != [] ==> u[0] == s[|s| - |u|];
  }

  // ---------------------------------------------------------------------------
  // Intents

  /** `createTask`: nothing is sent when the title is empty or only
      whitespace; otherwise a draft with the form's fields in the initial column. */
  function CreateIntent(title: string, priority: string, category: string): (r: Option<Intent>)
    ensures r.None? <==> IsBlank(title)
    ensures r.Some? ==> r.value.CreateTask? &&
                        r.value.draft == Draft(title, InitialColumn, priority, category)
  {
    TrimEmptyIffBlank(title);
    if Trim(title) == [] then None
    else Some(CreateTask(Draft(title, InitialColumn, priority, category)))
  }

  /** `moveTask`: the whole record, with `column` replaced by the target. */
  function MoveIntent(task: Task, column: string): (r: Intent)
    ensures r.UpdateTask? && r.task.id == task.id && r.task.column == column
    ensures r.task.(column := task.column) == task
  {
    UpdateTask(task.(column := column))
  }

  /** `deleteTask`: the bare id. */
  function DeleteIntent(id: Id): Intent
  {
    DeleteTask(id)
  }

  // ---------------------------------------------------------------------------
  // Column views

  /** `tasks.filter(t => t.column === col)`: the cards shown under `col`. */
  function ColumnView(tasks: seq<Task>, col: string): (r: seq<Task>)
    ensures |r| <= |tasks|
    ensures forall t :: t in r <==> t in tasks && t.column == col
  {
    if tasks == [] then []
    else (if tasks[0].column == col then [tasks[0]] else []) + ColumnView(tasks[1..], col)
  }

  /** The filter keeps every occurrence: a record in `col` is shown as many
      times as the list holds it, and any other record not at all. */
  lemma {:induction false} ColumnViewCounts(tasks: seq<Task>, col: string)
    ensures forall t :: multiset(ColumnView(tasks, col))[t] ==
                        if t.column == col then multiset(tasks)[t] else 0
  {
    if tasks != [] {
      ColumnViewCounts(tasks[1..], col);
      assert tasks == [tasks[0]] + tasks[1..];
    }
  }

  /** The tasks whose column the board does not render. */
  function Unplaced(tasks: seq<Task>): (r: seq<Task>)
    ensures forall t :: t in r <==> t in tasks && t.column !in Columns
  {
    if tasks == [] then []
    else (if tasks[0].column !in Columns then [tasks[0]] else []) + Unplaced(tasks[1..])
  }

  /** A card is shown under at most one column, and under none when its column
      is not one the board renders. */
  lemma ShownInOneColumn(tasks: seq<Task>, t: Task, c1: string, c2: string)
    requires t in ColumnView(tasks, c1) && t in ColumnView(tasks, c2)
    ensures c1 == c2
  {
  }

  /** A task with an unknown column is in no rendered view. */
  lemma UnknownColumnHidden(tasks: seq<Task>, t: Task)
    requires t.column !in Columns
    ensures forall c :: c in Columns ==> t !in ColumnView(tasks, c)
  {
  }

  /** The three rendered columns and the unplaced tasks partition the list:
      every record is counted exactly once. */
  lemma {:induction false} ColumnsPartition(tasks: seq<Task>)
    ensures |ColumnView(tasks, "Todo")| + |ColumnView(tasks, "In Progress")| +
            |ColumnView(tasks, "Done")| + |Unplaced(tasks)| == |tasks|
  {
    if tasks != [] {
      ColumnsPartition(tasks[1..]);
    }
  }

  // ---------------------------------------------------------------------------
  // Progress

  /** How many tasks sit in the Done column. */
  function DoneCount(tasks: seq<Task>): (n: nat)
    ensures n <= |tasks|
    ensures n == 0 <==> forall t :: t in tasks ==> t.column != DoneColumn
  {
    var v := ColumnView(tasks, DoneColumn);
    assert v != [] ==> v[0] in v;
    |v|
  }

  /** Multiplying by a natural number keeps an inequality. */
  lemma {:induction false} MulMono(c: nat, a: nat, b: nat)
    requires a <= b
    ensures c * a <= c * b
  {
    if c > 0 {
      MulMono(c - 1, a, b);
      assert c * a == (c - 1) * a + a;
      assert c * b == (c - 1) * b + b;
    }
  }

  /** The quotient is the one integer whose multiples bracket the dividend. */
  lemma DivBracket(x: nat, d: nat, q: nat)
    requires d > 0
    ensures x / d == q <==> d * q <= x < d * (q + 1)
  {
    var q', r' := x / d, x % d;
    assert x == d * q' + r' && 0 <= r' < d;
    if d * q <= x < d * (q + 1) {
      if q < q' {
        MulMono(d, q + 1, q');
      } else if q' < q {
        MulMono(d, q' + 1, q);
      }
    }
  }

  /** `Math.round(done / n * 100)` in exact arithmetic: the integer nearest to
      100 * done / n, halves going up. */
  function RoundedPercent(done: nat, n: nat): (p: nat)
    requires 0 < n && done <= n
    ensures p <= 100
    ensures 2 * n * p <= 200 * done + n < 2 * n * (p + 1)
  {
    var x, d := 200 * done + n, 2 * n;
    DivBracket(x, d, x / d);
    assert x / d <= 100 by {
      if x / d > 100 {
        MulMono(d, 101, x / d);
      }
    }
    x / d
  }

  /** The progress percentage: 0 for an empty board, otherwise the share of
      tasks in Done as a percentage rounded half up. */
  function Progress(tasks: seq<Task>): (p: nat)
    ensures p <= 100
    ensures |tasks| > 0 ==>
              2 * |tasks| * p <= 200 * DoneCount(tasks) + |tasks| < 2 * |tasks| * (p + 1)
  {
    if |tasks| == 0 then 0 else RoundedPercent(DoneCount(tasks), |tasks|)
  }

  /** Every task in Done makes the progress 100. */
  lemma {:induction false} ProgressAllDone(tasks: seq<Task>)
    requires |tasks| > 0
    requires forall i :: 0 <= i < |tasks| ==> tasks[i].column == DoneColumn
    ensures Progress(tasks) == 100
  {
    AllInView(tasks, DoneColumn);
    assert DoneCount(tasks) == |tasks|;
    AllOfRounded(|tasks|);
  }

  /** All of `n` is 100 percent. */
  lemma AllOfRounded(n: nat)
    requires n > 0
    ensures RoundedPercent(n, n) == 100
  {
    DivBracket(200 * n + n, 2 * n, 100);
  }

  /** No task in Done makes the progress 0. */
  lemma ProgressNoneDone(tasks: seq<Task>)
    requires forall i :: 0 <= i < |tasks| ==> tasks[i].column != DoneColumn
    ensures Progress(tasks) == 0
  {
    if |tasks| > 0 {
      NoneInView(tasks, DoneColumn);
      DivBracket(|tasks|, 2 * |tasks|, 0);
    }
  }

  /** When every task sits in `col`, the view of `col` is the whole list. */
  lemma {:induction false} AllInView(tasks: seq<Task>, col: string)
    requires forall i :: 0 <= i < |tasks| ==> tasks[i].column == col
    ensures ColumnView(tasks, col) == tasks
  {
    if tasks != [] {
      AllInView(tasks[1..], col);
    }
  }

  /** When no task sits in `col`, the view of `col` is empty. */
  lemma {:induction false} NoneInView(tasks: seq<Task>, col: string)
    requires forall i :: 0 <= i < |tasks| ==> tasks[i].column != col
    ensures ColumnView(tasks, col) == []
  {
    if tasks != [] {
      NoneInView(tasks[1..], col);
    }
  }

  /** The worked cases of the board: one task in Done shows 100%, one in Done
      and one in Todo shows 50%. */
  lemma ProgressExamples(a: Task, b: Task)
    requires a.column == DoneColumn && b.column == InitialColumn
    ensures Progress([a]) == 100
    ensures Progress([a, b]) == 50
  {
    ProgressAllDone([a]);
    assert [a, b][1..] == [b];
    assert ColumnView([a, b], DoneColumn) == [a];
  }
}
