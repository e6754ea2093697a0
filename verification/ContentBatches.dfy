/**
 Fetching the indexed content of a set of paths in batches of sixteen: whatever rows the
 database answers with, what is returned has exactly one row for each path.
 */
module ContentBatches {
  import opened Counting
  import opened Wrappers

  const BATCH_ROWS: nat := 16
  const FILE_BYTES: nat := 8 * 1024 * 1024
  const ROW_BYTES: nat := 9 * 1024 * 1024
  const TOTAL_BYTES: nat := 16 * 1024 * 1024

  /** A row that could be read; `content` is everything in it but the path. */
  datatype Row = Row(path: string, content: string)

  /** What the preflight reads: how many rows there are, and their sizes in bytes. */
  datatype Sizes = Sizes(count: int, total: int, frontmatter: int, body: int, row: int)

  /** What a query comes back with: an error, or rows of which some may be unreadable. */
  datatype Answer<T> = Failed | Rows(rows: seq<Option<T>>)

  datatype Problem = DatabaseFailed | RowInvalid | LimitExceeded | DeadlinePassed

  datatype Outcome = Ok(table: map<string, Row>) | Error(problem: Problem)

  predicate Distinct<T(==)>(s: seq<T>) {
    forall i, j | 0 <= i < j < |s| :: s[i] != s[j]
  }

  function Paths(rows: seq<Option<Row>>): (paths: seq<string>)
    requires AllReadable(rows)
    ensures |paths| == |rows| && forall i | 0 <= i < |rows| :: paths[i] == rows[i].value.path
  {
    seq(|rows|, i requires 0 <= i < |rows| => rows[i].value.path)
  }

  predicate AllReadable(rows: seq<Option<Row>>) {
    forall i | 0 <= i < |rows| :: rows[i].Some?
  }

  /** The rows are the batch, in some order. */
  ghost predicate Answers(rows: seq<Option<Row>>, batch: seq<string>) {
    AllReadable(rows) && multiset(Paths(rows)) == multiset(batch)
  }

  function BatchOf(remaining: seq<string>): (n: nat)
    ensures n <= |remaining| && (|remaining| > 0 ==> n > 0)
  {
    if |remaining| < BATCH_ROWS then |remaining| else BATCH_ROWS
  }

  /** From batch number `k` on, every answer is a permutation of its batch. */
  ghost predicate AllAnswered(remaining: seq<string>, answers: nat -> Answer<Row>, k: nat)
    decreases |remaining|
  {
    |remaining| == 0 ||
    var n := BatchOf(remaining);
    && answers(k).Rows? && Answers(answers(k).rows, remaining[..n])
    && AllAnswered(remaining[n..], answers, k + 1)
  }

  /** Each entry is a row of one of the first `k` answers, under its own path. */
  ghost predicate FromAnswers(table: map<string, Row>, answers: nat -> Answer<Row>, k: nat) {
    forall path | path in table :: table[path].path == path && InAnswers(table[path], answers, k)
  }

  ghost predicate InAnswers(row: Row, answers: nat -> Answer<Row>, k: nat) {
    exists j: nat :: j < k && answers(j).Rows? && Some(row) in answers(j).rows
  }

  function Keys(paths: seq<string>): set<string> {
    set i | 0 <= i < |paths| :: paths[i]
  }

  /** The rows of one batch that has passed, added to a table. */
  ghost predicate Extends(before: map<string, Row>, rows: seq<Option<Row>>, after: map<string, Row>)
    requires AllReadable(rows)
  {
    && after.Keys == before.Keys + Keys(Paths(rows))
    && (forall path | path in before :: path in after && after[path] == before[path])
    && (forall i | 0 <= i < |rows| :: rows[i].value.path in after && after[rows[i].value.path] == rows[i].value)
  }

  /**
   The inner loop of `validate_content`. Counting and refusing foreign and repeated rows is
   enough: what passes is a permutation of the batch, and nothing that is one is refused.
   */
  method AddRows(batch: seq<string>, rows: seq<Option<Row>>, table: map<string, Row>) returns (r: Outcome)
    ensures r.Ok? ==> Answers(rows, batch) && Distinct(batch) && Keys(batch) !! table.Keys && Extends(table, rows, r.table)
    ensures r == Error(RowInvalid) ==> !(Answers(rows, batch) && Distinct(batch) && Keys(batch) !! table.Keys)
    ensures r.Error? ==> r.problem == RowInvalid || r.problem == DeadlinePassed
  {
    if |rows| != |batch| {
      if Answers(rows, batch) { SameSize(Paths(rows), batch); }
      return Error(RowInvalid);
    }
    var grown := table;
    for index := 0 to |rows|
      invariant AllReadable(rows[..index])
      invariant grown.Keys == table.Keys + Keys(Paths(rows[..index]))
      invariant Extends(table, rows[..index], grown)
      invariant Distinct(Paths(rows[..index]))
      invariant forall i | 0 <= i < index :: rows[i].value.path in batch && rows[i].value.path !in table
    {
      var late: bool := *;
      if late { return Error(DeadlinePassed); }
      if rows[index].None? { return Error(RowInvalid); }
      var row := rows[index].value;
      if row.path !in batch || row.path in grown {
        ForeignOrRepeated(batch, rows, table, index);
        return Error(RowInvalid);
      }
      ExtendOne(table, rows, index, grown);
      grown := grown[row.path := row];
      late := *;
      if late { return Error(DeadlinePassed); }
    }
    assert rows[..|rows|] == rows;
    Pigeonhole(Paths(rows), batch);
    SameKeys(Paths(rows), batch);
    r := Ok(grown);
  }

  /** One readable row that counts as many rows as there are paths. */
  predicate CountsAll(sizes: Answer<Sizes>, paths: seq<string>) {
    sizes.Rows? && |sizes.rows| == 1 && sizes.rows[0].Some? && sizes.rows[0].value.count == |paths|
  }

  predicate WithinLimits(sizes: Sizes) {
    && sizes.total <= TOTAL_BYTES && sizes.row <= ROW_BYTES
    && sizes.frontmatter <= FILE_BYTES && sizes.body <= FILE_BYTES
  }

  /** `content_preflight`: `None` lets the batches be asked for. */
  method Preflight(sizes: Answer<Sizes>, paths: seq<string>) returns (problem: Option<Problem>)
    ensures problem.None? ==> CountsAll(sizes, paths) && WithinLimits(sizes.rows[0].value)
    ensures CountsAll(sizes, paths) && WithinLimits(sizes.rows[0].value) ==> problem.None? || problem == Some(DeadlinePassed)
    ensures problem == Some(RowInvalid) ==> sizes.Rows? && !CountsAll(sizes, paths)
    ensures problem == Some(LimitExceeded) ==> CountsAll(sizes, paths) && !WithinLimits(sizes.rows[0].value)
    ensures problem == Some(DatabaseFailed) ==> sizes.Failed?
  {
    var late: bool := *;
    if late { return Some(DeadlinePassed); }
    if sizes.Failed? { return Some(DatabaseFailed); }
    if |sizes.rows| != 1 || sizes.rows[0].None? { return Some(RowInvalid); }
    var read := sizes.rows[0].value;
    if read.count != |paths| { return Some(RowInvalid); }
    if read.total > TOTAL_BYTES || read.frontmatter > FILE_BYTES || read.body > FILE_BYTES || read.row > ROW_BYTES {
      return Some(LimitExceeded);
    }
    problem := None;
  }

  /**
   `validate_content`. An answer that does not fit is refused, and but for the deadline only such
   an answer is: `sizes` that miscount or exceed a limit, or rows that are not their batch.
   */
  method ValidateContent(sizes: Answer<Sizes>, paths: seq<string>, answers: nat -> Answer<Row>) returns (r: Outcome)
    ensures r.Ok? ==> CountsAll(sizes, paths) && WithinLimits(sizes.rows[0].value)
    ensures r.Ok? ==> r.table.Keys == Keys(paths) && Distinct(paths) && AllAnswered(paths, answers, 0)
    ensures r.Ok? ==> exists k: nat :: FromAnswers(r.table, answers, k)
    ensures r == Error(LimitExceeded) ==> CountsAll(sizes, paths) && !WithinLimits(sizes.rows[0].value)
    ensures CountsAll(sizes, paths) && WithinLimits(sizes.rows[0].value) && Distinct(paths) && AllAnswered(paths, answers, 0) ==>
              r.Ok? || r == Error(DeadlinePassed)
    ensures r == Error(RowInvalid) ==> !CountsAll(sizes, paths) || !(Distinct(paths) && AllAnswered(paths, answers, 0))
  {
    var problem := Preflight(sizes, paths);
    if problem.Some? { return Error(problem.value); }
    var table: map<string, Row> := map[];
    var remaining, k := paths, 0;
    while |remaining| > 0
      invariant Filled(paths, remaining, table, answers, k)
      decreases |remaining|
    {
      var n := BatchOf(remaining);
      var batch := remaining[..n];
      var late: bool := *;
      if late { return Error(DeadlinePassed); }
      if answers(k).Failed? { return Error(DatabaseFailed); }
      var added := AddRows(batch, answers(k).rows, table);
      if added.Error? {
        BatchRefused(paths, remaining, table, answers, k);
        return added;
      }
      BatchPassed(paths, remaining, table, added.table, answers, k);
      table := added.table;
      remaining := remaining[n..];
      k := k + 1;
    }
    assert paths[..|paths|] == paths;
    r := Ok(table);
  }

  /** The first `k` batches are in the table, and the rest remains to be asked for. */
  ghost predicate Filled(paths: seq<string>, remaining: seq<string>, table: map<string, Row>,
                         answers: nat -> Answer<Row>, k: nat) {
    && |remaining| <= |paths|
    && var done := paths[..|paths| - |remaining|];
       && paths == done + remaining && table.Keys == Keys(done) && Distinct(done)
       && FromAnswers(table, answers, k)
       && (AllAnswered(paths, answers, 0) <==> AllAnswered(remaining, answers, k))
  }

  // ----- Counting -----

  lemma {:induction false} DistinctCount<T>(s: seq<T>)
    requires Distinct(s)
    ensures forall x | x in s :: multiset(s)[x] == 1
  {
    if |s| > 0 {
      var front, last := s[..|s| - 1], s[|s| - 1];
      DistinctCount(front);
      assert s == front + [last];
      assert last !in front;
    }
  }

  /** As many distinct items as the batch, all from the batch, are the batch. */
  lemma Pigeonhole<T>(s: seq<T>, batch: seq<T>)
    requires Distinct(s) && |s| == |batch| && forall i | 0 <= i < |s| :: s[i] in batch
    ensures multiset(s) == multiset(batch) && Distinct(batch)
  {
    DistinctCount(s);
    assert multiset(s) <= multiset(batch) by {
      forall x | x in s
        ensures multiset(s)[x] <= multiset(batch)[x]
      {
        var i :| 0 <= i < |s| && s[i] == x;
        assert s[i] in batch;
      }
    }
    var rest := multiset(batch) - multiset(s);
    assert multiset(batch) == multiset(s) + rest;
    assert |rest| == 0;
    CountedOnce(batch, s);
  }

  lemma CountedOnce<T>(batch: seq<T>, s: seq<T>)
    requires Distinct(s) && multiset(s) == multiset(batch)
    ensures Distinct(batch)
  {
    DistinctCount(s);
    forall i, j | 0 <= i < j < |batch|
      ensures batch[i] != batch[j]
    {
      assert batch == batch[..j] + batch[j..];
      assert batch[i] in batch[..j] && batch[j] in batch[j..];
      assert multiset(batch) == multiset(batch[..j]) + multiset(batch[j..]);
      assert batch[i] in multiset(s);
    }
  }

  lemma PathsSnoc(rows: seq<Option<Row>>, index: nat)
    requires index < |rows| && AllReadable(rows[..index]) && rows[index].Some?
    ensures AllReadable(rows[..index + 1])
    ensures Paths(rows[..index + 1]) == Paths(rows[..index]) + [rows[index].value.path]
  {
    assert rows[..index + 1] == rows[..index] + [rows[index]];
  }

  lemma KeysSnoc(paths: seq<string>, path: string)
    ensures Keys(paths + [path]) == Keys(paths) + {path}
  {
    var all := paths + [path];
    assert all[|paths|] == path;
    assert forall i | 0 <= i < |paths| :: all[i] == paths[i];
  }

  lemma KeysAppend(s: seq<string>, t: seq<string>)
    ensures Keys(s + t) == Keys(s) + Keys(t)
  {
    var all := s + t;
    forall x | x in Keys(t)
      ensures x in Keys(all)
    {
      var i :| 0 <= i < |t| && t[i] == x;
      assert all[|s| + i] == x;
    }
    assert forall i | 0 <= i < |s| :: all[i] == s[i];
  }

  lemma ExtendOne(table: map<string, Row>, rows: seq<Option<Row>>, index: nat, grown: map<string, Row>)
    requires index < |rows| && AllReadable(rows[..index]) && rows[index].Some?
    requires Extends(table, rows[..index], grown) && rows[index].value.path !in grown
    requires Distinct(Paths(rows[..index]))
    ensures AllReadable(rows[..index + 1])
    ensures Extends(table, rows[..index + 1], grown[rows[index].value.path := rows[index].value])
    ensures Distinct(Paths(rows[..index + 1]))
  {
    var row := rows[index].value;
    PathsSnoc(rows, index);
    KeysSnoc(Paths(rows[..index]), row.path);
    var shorter := Paths(rows[..index]);
    assert forall i | 0 <= i < index :: shorter[i] in Keys(shorter);
  }

  lemma ForeignOrRepeated(batch: seq<string>, rows: seq<Option<Row>>, table: map<string, Row>, index: nat)
    requires index < |rows| && rows[index].Some? && AllReadable(rows[..index])
    requires rows[index].value.path !in batch
          || rows[index].value.path in table.Keys + Keys(Paths(rows[..index]))
    ensures !(Answers(rows, batch) && Distinct(batch) && Keys(batch) !! table.Keys)
  {
    if Answers(rows, batch) && Distinct(batch) {
      var path, all := rows[index].value.path, Paths(rows);
      assert all[index] == path && path in multiset(all);
      assert path in batch;
      CountedOnce(all, batch);
      assert forall i | 0 <= i < index :: Paths(rows[..index])[i] == all[i];
      assert path in table;
      var i :| 0 <= i < |batch| && batch[i] == path;
      assert path in Keys(batch);
    }
  }

  // ----- Batches -----

  lemma BatchRefused(paths: seq<string>, remaining: seq<string>, table: map<string, Row>, answers: nat -> Answer<Row>,
                     k: nat)
    requires |remaining| > 0 && Filled(paths, remaining, table, answers, k) && answers(k).Rows?
    ensures var batch := remaining[..BatchOf(remaining)];
            Distinct(paths) && AllAnswered(paths, answers, 0) ==>
              Answers(answers(k).rows, batch) && Distinct(batch) && Keys(batch) !! table.Keys
  {
    var done, batch := paths[..|paths| - |remaining|], remaining[..BatchOf(remaining)];
    assert forall i | 0 <= i < |batch| :: paths[|done| + i] == batch[i];
    assert forall i | 0 <= i < |done| :: paths[i] == done[i];
  }

  lemma BatchPassed(paths: seq<string>, remaining: seq<string>, table: map<string, Row>, after: map<string, Row>,
                    answers: nat -> Answer<Row>, k: nat)
    requires |remaining| > 0 && Filled(paths, remaining, table, answers, k) && answers(k).Rows?
    requires var batch := remaining[..BatchOf(remaining)];
             Answers(answers(k).rows, batch) && Distinct(batch) && Keys(batch) !! table.Keys
    requires Extends(table, answers(k).rows, after)
    ensures Filled(paths, remaining[BatchOf(remaining)..], after, answers, k + 1)
  {
    var n := BatchOf(remaining);
    var done, batch, rest := paths[..|paths| - |remaining|], remaining[..n], remaining[n..];
    assert paths[..|paths| - |rest|] == done + batch;
    assert paths == (done + batch) + rest;
    BatchJoins(done, batch, answers(k).rows);
    RowsFrom(table, after, answers, k);
  }

  lemma BatchJoins(done: seq<string>, batch: seq<string>, rows: seq<Option<Row>>)
    requires Distinct(done) && Distinct(batch) && Keys(batch) !! Keys(done) && Answers(rows, batch)
    ensures Distinct(done + batch) && Keys(done + batch) == Keys(done) + Keys(Paths(rows))
  {
    KeysAppend(done, batch);
    assert forall i | 0 <= i < |batch| :: batch[i] in Keys(batch);
    assert forall i | 0 <= i < |done| :: done[i] in Keys(done);
    SameKeys(Paths(rows), batch);
  }

  lemma SameKeys(s: seq<string>, t: seq<string>)
    requires multiset(s) == multiset(t)
    ensures Keys(s) == Keys(t)
  {
    assert forall x :: x in Keys(s) <==> x in multiset(s);
    assert forall x :: x in Keys(t) <==> x in multiset(t);
  }

  lemma RowsFrom(before: map<string, Row>, after: map<string, Row>, answers: nat -> Answer<Row>, k: nat)
    requires FromAnswers(before, answers, k) && answers(k).Rows? && AllReadable(answers(k).rows)
    requires Extends(before, answers(k).rows, after)
    ensures FromAnswers(after, answers, k + 1)
  {
    var rows := answers(k).rows;
    forall path | path in after
      ensures after[path].path == path && InAnswers(after[path], answers, k + 1)
    {
      if path in before {
        assert InAnswers(before[path], answers, k);
      } else {
        var i :| 0 <= i < |rows| && Paths(rows)[i] == path;
        assert rows[i].value.path in after && rows[i] == Some(after[path]);
      }
    }
  }
}
