/** create_data of main.py: choosing where to start from the stored data,
    computing a fixed number of triangles and writing the sampled ones in
    one batch, or computing triangles without end and appending each sampled
    one as soon as it is computed. */
module Generation {
  import opened Wrappers
  import opened Numeric
  import opened Triangles
  import opened Store
  import opened Series

  /** create_data: resumes after the last stored row, or starts a new file
      at triangle 1. A negative amount computes triangles without end (here
      the first `iterations` of them) and appends each sampled one to the
      file at once; otherwise `amount` triangles are computed and the
      sampled ones written in one batch at the end, which an error prevents. */
  method CreateData(b: Backend, cfg: Config, headers: seq<string>, disk: DataFile,
                    saveEvery: int, amount: int, iterations: nat)
    returns (error: Option<Error>)
    requires ValidConfig(cfg) && SqrtPositive(b) && ValidHeaders(headers) && saveEvery != 0
    requires LastRow(disk.contents).Some? ==> WellFormedRow(LastRow(disk.contents).value)
    modifies disk
    ensures var seed := ChooseSeed(LastRow(old(disk.contents)));
            var o := Run(Next(b, cfg), seed.cursor, if amount < 0 then iterations else amount);
            var batch := RowsOf(Kept(o.computed, Sampling(saveEvery)));
            && error == o.error
            && (amount < 0 || error.None? ==>
                  disk.contents == Some(Written(old(disk.contents), headers, batch, seed.createNewFile)))
            && (amount >= 0 && error.Some? ==> disk.contents == old(disk.contents))
  {
    var last := disk.ReadLastTriangle();
    var seed := ChooseSeed(last);
    if amount < 0 {
      if seed.createNewFile {
        var empty := new TriangleData(headers);
        disk.Write(headers, empty.Rows(), true);
      }
      error := CalculateForever(Next(b, cfg), seed.cursor, saveEvery, headers, disk, iterations);
    } else {
      var data := new TriangleData(headers);
      error := CalculateRange(Next(b, cfg), seed.cursor, amount, saveEvery, data);
      if error.None? {
        disk.Write(headers, data.Rows(), seed.createNewFile);
      }
    }
  }

  /** The bounded branch: computes `amount` triangles from `start` and adds
      the row of every triangle whose number passes the sampling test to
      `data`. On an error it stops, as the exception does. `next` is the
      recurrence the loop calls, calculate_triangle in create_data. */
  method CalculateRange(next: Recurrence, start: Cursor, amount: nat, saveEvery: int,
                        data: TriangleData)
    returns (error: Option<Error>)
    requires KeepsNumber(next) && saveEvery != 0
    requires data.Valid() && data.Rows() == []
    modifies data
    ensures data.Valid()
    ensures var o := Run(next, start, amount);
            error == o.error
            && (error.None? ==> data.Rows() == RowsOf(Kept(o.computed, Sampling(saveEvery))))
  {
    ghost var ts: seq<Triangle> := [];
    ghost var i: nat := 0;
    var rotation, previous := start.rotation, start.previous;
    for number := start.number to start.number + amount
      invariant number == start.number + i
      invariant Run(next, start, i) == Outcome(ts, Cursor(number, rotation, previous), None)
      invariant data.Valid() && data.Rows() == RowsOf(Kept(ts, Sampling(saveEvery)))
    {
      var r := next(Cursor(number, rotation, previous));
      RunOneMore(next, start, i, ts, Cursor(number, rotation, previous), amount);
      if r.Err? {
        return Some(r.error);
      }
      var t := r.value;
      SavedRowsAppend(ts, t, Sampling(saveEvery));
      if number % saveEvery == 0 {
        t.SaveTriangleData(data);
      }
      rotation := t.rotation;
      previous := Some(t.outsideRight);
      ts := ts + [t];
      i := i + 1;
    }
    error := None;
  }

  /** The unbounded branch, interrupted after `iterations` iterations: every
      triangle whose number passes the sampling test is appended to the file
      on its own as soon as it is computed. On an error it stops, leaving the
      rows already appended in the file. `next` is the recurrence the loop
      calls, calculate_triangle in create_data. */
  method CalculateForever(next: Recurrence, start: Cursor, saveEvery: int,
                          headers: seq<string>, disk: DataFile, iterations: nat)
    returns (error: Option<Error>)
    requires KeepsNumber(next) && saveEvery != 0
    requires ValidHeaders(headers) && disk.contents.Some?
    modifies disk
    ensures var o := Run(next, start, iterations);
            error == o.error
            && disk.contents == Some(Written(old(disk.contents), headers, RowsOf(Kept(o.computed, Sampling(saveEvery))), false))
  {
    ghost var base := disk.contents;
    ghost var keep := Sampling(saveEvery);
    ghost var ts: seq<Triangle> := [];
    ghost var i: nat := 0;
    var rotation, previous := start.rotation, start.previous;
    assert base.value.rows + [] == base.value.rows;
    for number := start.number to start.number + iterations
      invariant number == start.number + i
      invariant Run(next, start, i) == Outcome(ts, Cursor(number, rotation, previous), None)
      invariant disk.contents == Some(Written(base, headers, RowsOf(Kept(ts, keep)), false))
    {
      var r := next(Cursor(number, rotation, previous));
      RunOneMore(next, start, i, ts, Cursor(number, rotation, previous), iterations);
      if r.Err? {
        return Some(r.error);
      }
      var t := r.value;
      WrittenOneMore(base, headers, ts, t, keep);
      if number % saveEvery == 0 {
        AppendTriangle(t, headers, disk);
      }
      rotation := t.rotation;
      previous := Some(t.outsideRight);
      ts := ts + [t];
      i := i + 1;
    }
    error := None;
  }

  /** Appends the row of one triangle to the file through a table of its
      own. */
  method AppendTriangle(t: Triangle, headers: seq<string>, disk: DataFile)
    requires ValidHeaders(headers) && disk.contents.Some?
    modifies disk
    ensures disk.contents == Some(CsvFile(old(disk.contents.value.header), old(disk.contents.value.rows) + [t.Fields()]))
  {
    var data := new TriangleData(headers);
    t.SaveTriangleData(data);
    assert data.Rows() == [t.Fields()];
    disk.Write(headers, data.Rows(), false);
  }

  /** The rows kept after one more triangle: its row joins them exactly
      when its number passes the sampling test. */
  lemma SavedRowsAppend(ts: seq<Triangle>, t: Triangle, keep: int -> bool)
    ensures keep(t.number) ==> RowsOf(Kept(ts + [t], keep)) == RowsOf(Kept(ts, keep)) + [t.Fields()]
    ensures !keep(t.number) ==> RowsOf(Kept(ts + [t], keep)) == RowsOf(Kept(ts, keep))
  {
    KeptAppend(ts, t, keep);
    var ks := Kept(ts, keep);
    if keep(t.number) {
      RowsOfAppend(ks, t);
    } else {
      assert ks + [] == ks;
    }
  }

  /** The rows of one more triangle are the rows before followed by its
      row. */
  lemma RowsOfAppend(ts: seq<Triangle>, t: Triangle)
    ensures RowsOf(ts + [t]) == RowsOf(ts) + [t.Fields()]
  {
    assert forall i :: 0 <= i < |ts| ==> (ts + [t])[i] == ts[i];
  }

  /** One more iteration from the loop variables a run has reached: an
      error ends the run there, whatever the number of iterations still
      asked for; a triangle is appended and the loop variables move past it. */
  lemma RunOneMore(next: Recurrence, start: Cursor, i: nat, ts: seq<Triangle>, c: Cursor, k: nat)
    requires Run(next, start, i) == Outcome(ts, c, None) && i < k
    ensures next(c).Err? ==> Run(next, start, k) == Outcome(ts, c, Some(next(c).error))
    ensures next(c).Ok? ==> Run(next, start, i + 1) == Outcome(ts + [next(c).value], Advance(c, next(c).value), None)
  {
    RunUnfold(next, start, i + 1);
    if next(c).Err? {
      RunStopsAtError(next, start, i + 1, k);
    }
  }

  /** The file after one more triangle: its row is appended exactly when its
      number passes the sampling test. */
  lemma WrittenOneMore(base: Option<CsvFile>, headers: seq<string>, ts: seq<Triangle>, t: Triangle,
                       keep: int -> bool)
    requires base.Some?
    ensures var before := Written(base, headers, RowsOf(Kept(ts, keep)), false);
            Written(base, headers, RowsOf(Kept(ts + [t], keep)), false)
            == if keep(t.number) then CsvFile(before.header, before.rows + [t.Fields()]) else before
  {
    SavedRowsAppend(ts, t, keep);
    if keep(t.number) {
      var saved := RowsOf(Kept(ts, keep));
      assert base.value.rows + (saved + [t.Fields()]) == base.value.rows + saved + [t.Fields()];
    }
  }

}
