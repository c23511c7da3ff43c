/**
 * The CSV-to-PostgreSQL migration script (src/backend/scripts/migrate_csv.py):
 * batched inserts, the special-cased municipios load, the post-migration
 * integrity verdict and the loop over the generic tables. The database is an
 * oracle: `db(j)` says whether the j-th batch insert succeeds, `execOk(k)`
 * whether the numeric conversions and the execute of the k-th upserted
 * municipio row succeed.
 */
module Migration {
  import opened Oracle

  datatype Option<T> = None | Some(value: T)

  /**
   * One row as csv.DictReader yields it: the header's column names in file
   * order and the value of each, None for the columns a short row does not
   * reach.
   */
  datatype CsvRow = CsvRow(columns: seq<string>, fields: map<string, Option<string>>)

  /** `row[column]`, with None (SQL NULL) for a padded cell. */
  function Get(r: CsvRow, column: string): Option<string> {
    if column in r.fields then r.fields[column] else None
  }

  // ---------------------------------------------------------------------------
  // Leading successes of an oracle
  // ---------------------------------------------------------------------------

  /** How many of the steps 0, 1, ..., n-1 succeed before the first failure. */
  function OkPrefix(ok: nat -> bool, n: nat): (c: nat)
    ensures c <= n
    ensures forall k :: 0 <= k < c ==> ok(k)
    ensures c < n ==> !ok(c)
  {
    if n == 0 then 0
    else
      var c := OkPrefix(ok, n - 1);
      if c == n - 1 && ok(n - 1) then n else c
  }

  /** The first `n` steps all succeed. */
  predicate AllOk(ok: nat -> bool, n: nat) {
    forall k :: 0 <= k < n ==> ok(k)
  }

  lemma AllOkExtend(ok: nat -> bool, n: nat)
    requires AllOk(ok, n) && ok(n)
    ensures AllOk(ok, n + 1)
  {
  }

  // ---------------------------------------------------------------------------
  // insert_data
  // ---------------------------------------------------------------------------

  const DefaultBatchSize: nat := 1000

  function Flatten<T>(bs: seq<seq<T>>): seq<T> {
    if bs == [] then [] else bs[0] + Flatten(bs[1..])
  }

  /** The batches `xs[i:i + n]`, `xs[i + n:i + 2n]`, ... up to the end of `xs`. */
  function BatchesFrom<T>(xs: seq<T>, n: nat, i: nat): seq<seq<T>>
    requires n > 0 && i <= |xs|
    decreases |xs| - i
  {
    if i == |xs| then []
    else
      var end := if i + n < |xs| then i + n else |xs|;
      [xs[i..end]] + BatchesFrom(xs, n, end)
  }

  /** `data[i:i + n]` for i in range(0, len(data), n). */
  function Batches<T>(xs: seq<T>, n: nat): seq<seq<T>>
    requires n > 0
  {
    BatchesFrom(xs, n, 0)
  }

  /**
   * The batches from `i` are consecutive non-empty slices of length n, only
   * the last possibly shorter, that put back together give `xs[i..]`.
   */
  lemma {:induction false} BatchesFromPartition<T>(xs: seq<T>, n: nat, i: nat)
    requires n > 0 && i <= |xs|
    ensures forall j :: 0 <= j < |BatchesFrom(xs, n, i)| ==> 0 < |BatchesFrom(xs, n, i)[j]| <= n
    ensures forall j :: 0 <= j < |BatchesFrom(xs, n, i)| - 1 ==> |BatchesFrom(xs, n, i)[j]| == n
    ensures Flatten(BatchesFrom(xs, n, i)) == xs[i..]
    decreases |xs| - i
  {
    if i < |xs| {
      var end := if i + n < |xs| then i + n else |xs|;
      var rest := BatchesFrom(xs, n, end);
      BatchesFromPartition(xs, n, end);
      assert BatchesFrom(xs, n, i) == [xs[i..end]] + rest;
      assert ([xs[i..end]] + rest)[1..] == rest;
      assert xs[i..end] + xs[end..] == xs[i..];
      assert forall j :: 1 <= j < |BatchesFrom(xs, n, i)| ==> BatchesFrom(xs, n, i)[j] == rest[j - 1];
    }
  }

  /**
   * The batches are consecutive non-empty slices of length n, only the last
   * possibly shorter, that put back together give `xs`.
   */
  lemma BatchesPartition<T>(xs: seq<T>, n: nat)
    requires n > 0
    ensures forall j :: 0 <= j < |Batches(xs, n)| ==> 0 < |Batches(xs, n)[j]| <= n
    ensures forall j :: 0 <= j < |Batches(xs, n)| - 1 ==> |Batches(xs, n)[j]| == n
    ensures Flatten(Batches(xs, n)) == xs
  {
    BatchesFromPartition(xs, n, 0);
    assert xs[0..] == xs;
  }

  /** The value tuple of a row: its values in the order of `columns`. */
  function Tuple(r: CsvRow, columns: seq<string>): seq<Option<string>> {
    seq(|columns|, j requires 0 <= j < |columns| => Get(r, columns[j]))
  }

  function Tuples(rows: seq<CsvRow>, columns: seq<string>): seq<seq<Option<string>>> {
    seq(|rows|, k requires 0 <= k < |rows| => Tuple(rows[k], columns))
  }

  /** The value lists handed to execute_values, one per batch. */
  function BatchTuples(bs: seq<seq<CsvRow>>, columns: seq<string>): seq<seq<seq<Option<string>>>> {
    seq(|bs|, j requires 0 <= j < |bs| => Tuples(bs[j], columns))
  }

  /** What insert_data returns. */
  function InsertTotal(data: seq<CsvRow>, batchSize: nat, db: nat -> bool): (total: nat)
    requires batchSize > 0
    ensures total == 0 || total == |data|
    ensures total == |data| <==> OkPrefix(db, |Batches(data, batchSize)|) == |Batches(data, batchSize)|
  {
    var n := |Batches(data, batchSize)|;
    if data != [] && OkPrefix(db, n) == n then |data| else 0
  }

  /**
   * insert_data: one INSERT per batch, each followed by a commit; the first
   * failing batch rolls back and the result is 0, even though the earlier
   * batches stay committed. `attempted` are the value lists sent, `committed`
   * the number of batches committed.
   */
  method InsertData(data: seq<CsvRow>, batchSize: nat, db: nat -> bool)
    returns (total: nat, attempted: seq<seq<seq<Option<string>>>>, committed: nat)
    requires batchSize > 0
    ensures data == [] ==> total == 0 && attempted == [] && committed == 0
    ensures total == InsertTotal(data, batchSize, db)
    ensures committed == OkPrefix(db, |Batches(data, batchSize)|)
    ensures |attempted| == if committed == |Batches(data, batchSize)| then committed else committed + 1
    ensures data != [] ==>
      attempted == BatchTuples(Batches(data, batchSize)[..|attempted|], data[0].columns)
  {
    if data == [] {
      return 0, [], 0;
    }
    var columns := data[0].columns;
    total := 0;
    attempted := [];
    committed := 0;
    ghost var done: seq<seq<CsvRow>> := [];
    var i := 0;
    while i < |data|
      invariant 0 <= i <= |data|
      invariant Batches(data, batchSize) == done + BatchesFrom(data, batchSize, i)
      invariant committed == |done|
      invariant forall j :: 0 <= j < |done| ==> db(j)
      invariant attempted == BatchTuples(done, columns)
      invariant total == i
    {
      var end := if i + batchSize < |data| then i + batchSize else |data|;
      var batch := data[i..end];
      BatchesFromStep(done, data, batchSize, i);
      var values := Tuples(batch, columns);
      BatchTuplesSnoc(done, batch, columns);
      attempted := attempted + [values];
      if !db(committed) {
        InsertStopsAt(data, batchSize, db, done, i);
        return 0, attempted, committed;
      }
      done := done + [batch];
      committed := committed + 1;
      total := total + |batch|;
      i := end;
    }
    InsertCompletes(data, batchSize, db, done);
  }

  /** A failing batch ends the committed prefix, and insert_data returns 0. */
  lemma InsertStopsAt(data: seq<CsvRow>, n: nat, db: nat -> bool, done: seq<seq<CsvRow>>, i: nat)
    requires n > 0 && i < |data|
    requires Batches(data, n) == done + BatchesFrom(data, n, i)
    requires forall j :: 0 <= j < |done| ==> db(j)
    requires !db(|done|)
    ensures var end := if i + n < |data| then i + n else |data|;
      Batches(data, n)[..|done| + 1] == done + [data[i..end]]
    ensures OkPrefix(db, |Batches(data, n)|) == |done| < |Batches(data, n)|
    ensures InsertTotal(data, n, db) == 0
  {
    var end := if i + n < |data| then i + n else |data|;
    PrefixThrough(done, data[i..end], BatchesFrom(data, n, end));
    OkPrefixStops(db, |done|, |Batches(data, n)|);
  }

  /** When every batch commits, all of them were sent and the row count is returned. */
  lemma InsertCompletes(data: seq<CsvRow>, n: nat, db: nat -> bool, done: seq<seq<CsvRow>>)
    requires n > 0 && data != []
    requires Batches(data, n) == done + BatchesFrom(data, n, |data|)
    requires forall j :: 0 <= j < |done| ==> db(j)
    ensures Batches(data, n)[..|done|] == done == Batches(data, n)
    ensures OkPrefix(db, |Batches(data, n)|) == |done|
    ensures InsertTotal(data, n, db) == |data|
  {
    OkPrefixAll(db, |done|);
  }

  /** Sending the batch at offset `i` moves it from the remaining batches to the sent ones. */
  lemma BatchesFromStep<T>(done: seq<seq<T>>, data: seq<T>, n: nat, i: nat)
    requires n > 0 && i < |data|
    ensures var end := if i + n < |data| then i + n else |data|;
      done + BatchesFrom(data, n, i) == (done + [data[i..end]]) + BatchesFrom(data, n, end)
  {
  }

  lemma BatchTuplesSnoc(bs: seq<seq<CsvRow>>, b: seq<CsvRow>, columns: seq<string>)
    ensures BatchTuples(bs + [b], columns) == BatchTuples(bs, columns) + [Tuples(b, columns)]
  {
  }

  lemma PrefixThrough<T>(a: seq<T>, x: T, rest: seq<T>)
    ensures (a + ([x] + rest))[..|a| + 1] == a + [x]
  {
  }

  /** The prefix ends at the first failure. */
  lemma {:induction false} OkPrefixStops(ok: nat -> bool, c: nat, n: nat)
    requires c < n
    requires forall k :: 0 <= k < c ==> ok(k)
    requires !ok(c)
    ensures OkPrefix(ok, n) == c
  {
    if n - 1 > c {
      OkPrefixStops(ok, c, n - 1);
    }
  }

  /** When every step succeeds the prefix is everything. */
  lemma {:induction false} OkPrefixAll(ok: nat -> bool, n: nat)
    requires forall k :: 0 <= k < n ==> ok(k)
    ensures OkPrefix(ok, n) == n
  {
  }

  // ---------------------------------------------------------------------------
  // migrate_municipios
  // ---------------------------------------------------------------------------

  /**
   * Python's `str.isspace`: tab through carriage return, the four
   * information separators, space, next line, no-break space, and the
   * Unicode space and separator characters.
   */
  predicate IsSpace(c: char) {
    || '\t' <= c <= '\r'
    || '\U{1C}' <= c <= '\U{1F}'
    || c == ' '
    || c == '\U{85}'
    || c == '\U{A0}'
    || c == '\U{1680}'
    || '\U{2000}' <= c <= '\U{200A}'
    || c == '\U{2028}'
    || c == '\U{2029}'
    || c == '\U{202F}'
    || c == '\U{205F}'
    || c == '\U{3000}'
  }

  /** The index of the first non-whitespace character of `s` at or after `i`. */
  function Lead(s: string, i: nat): (j: nat)
    requires i <= |s|
    ensures i <= j <= |s|
    decreases |s| - i
  {
    if i < |s| && IsSpace(s[i]) then Lead(s, i + 1) else i
  }

  /** The end of `s[lo..j]` once its trailing whitespace is dropped. */
  function Trail(s: string, lo: nat, j: nat): (k: nat)
    requires lo <= j <= |s|
    ensures lo <= k <= j
  {
    if lo < j && IsSpace(s[j - 1]) then Trail(s, lo, j - 1) else j
  }

  /** `str.strip()`: the input without its leading and trailing whitespace. */
  function Strip(s: string): (t: string)
    ensures |t| <= |s|
  {
    var i := Lead(s, 0);
    s[i..Trail(s, i, |s|)]
  }

  lemma {:induction false} LeadSkipsSpaces(s: string, i: nat)
    requires i <= |s|
    ensures forall k :: i <= k < Lead(s, i) ==> IsSpace(s[k])
    ensures Lead(s, i) < |s| ==> !IsSpace(s[Lead(s, i)])
    decreases |s| - i
  {
    if i < |s| && IsSpace(s[i]) {
      LeadSkipsSpaces(s, i + 1);
    }
  }

  lemma {:induction false} TrailSkipsSpaces(s: string, lo: nat, j: nat)
    requires lo <= j <= |s|
    ensures forall k :: Trail(s, lo, j) <= k < j ==> IsSpace(s[k])
    ensures lo < Trail(s, lo, j) ==> !IsSpace(s[Trail(s, lo, j) - 1])
  {
    if lo < j && IsSpace(s[j - 1]) {
      TrailSkipsSpaces(s, lo, j - 1);
    }
  }

  /** `t` is `s` with `i` leading and some trailing whitespace characters removed. */
  predicate TrimmedAt(s: string, t: string, i: int) {
    && 0 <= i <= |s| - |t|
    && t == s[i..i + |t|]
    && (forall k :: 0 <= k < i ==> IsSpace(s[k]))
    && (forall k :: i + |t| <= k < |s| ==> IsSpace(s[k]))
  }

  /**
   * Strip removes whitespace from both ends and nothing else: the result is
   * a slice of the input, everything outside it whitespace, and neither of
   * its own ends whitespace.
   */
  lemma StripIsTrimmedSlice(s: string)
    ensures TrimmedAt(s, Strip(s), Lead(s, 0))
    ensures Strip(s) == "" || (!IsSpace(Strip(s)[0]) && !IsSpace(Strip(s)[|Strip(s)| - 1]))
  {
    var i := Lead(s, 0);
    var j := Trail(s, i, |s|);
    var t := s[i..j];
    assert Strip(s) == t;
    LeadSkipsSpaces(s, 0);
    TrailSkipsSpaces(s, i, |s|);
    assert i + |t| == j;
    if i < j {
      assert t[0] == s[i];
      assert t[|t| - 1] == s[j - 1];
    }
    assert TrimmedAt(s, t, i);
  }

  /** The stripped value is empty exactly when the input is all whitespace. */
  lemma StripEmptyIffBlank(s: string)
    ensures Strip(s) == "" <==> Blank(s)
  {
    StripIsTrimmedSlice(s);
    var i := Lead(s, 0);
    if Strip(s) == "" && i < |s| {
      assert IsSpace(s[i]);
      LeadSkipsSpaces(s, 0);
    }
  }

  /** A value whose ends are not whitespace is its own strip. */
  lemma StripFixes(t: string)
    requires t == "" || (!IsSpace(t[0]) && !IsSpace(t[|t| - 1]))
    ensures Strip(t) == t
  {
    assert t[0..|t|] == t;
  }

  /** Stripping what is already stripped changes nothing. */
  lemma StripIdempotent(s: string)
    ensures Strip(Strip(s)) == Strip(s)
  {
    StripIsTrimmedSlice(s);
    StripFixes(Strip(s));
  }

  /** `value.strip() or None`. */
  function Optional(value: string): (o: Option<string>)
    ensures o.Some? ==> o.value != ""
  {
    if Strip(value) == "" then None else Some(Strip(value))
  }

  /**
   * An optional column is None exactly when it is blank, and otherwise holds
   * non-empty text that is already stripped.
   */
  lemma OptionalStripped(value: string)
    ensures Optional(value).None? <==> Blank(value)
    ensures Optional(value).Some? ==> Optional(value).value != "" && Strip(Optional(value).value) == Optional(value).value
  {
    StripEmptyIffBlank(value);
    StripIdempotent(value);
  }

  /** The optional region columns of municipios.csv, in insertion order. */
  const RegionColumns: seq<string> :=
    ["microrregiao", "mesorregiao", "regiao_intermediaria", "regiao_imediata", "territorio_identidade"]

  /**
   * A row of municipios.csv, each text column as `row.get(column, '')`
   * yields it: `Some("")` when the header lacks the column, `None` when the
   * row is too short to reach it (csv.DictReader pads with None);
   * `regions[k]` is the column `RegionColumns[k]`.
   */
  datatype MunicipioRow = MunicipioRow(codigoIbge: Option<string>, nomeMunicipio: Option<string>, regions: seq<Option<string>>)

  /** The cleaned record inserted into t_municipios (numeric columns left out). */
  datatype Municipio = Municipio(codigoIbge: string, nome: string, regions: seq<Option<string>>)

  /**
   * What the loop body does with one row: skip it, raise (calling `strip` on
   * a None value), or upsert a record.
   */
  datatype Step<M> = Skip | Raise | Upsert(record: M)

  /** The record of a row whose code, name and region columns are all present. */
  function Clean(code: string, nome: string, regions: seq<Option<string>>): (m: Municipio)
    requires None !in regions
    ensures m.codigoIbge == Strip(code) && m.nome == Strip(nome)
    ensures |m.regions| == |regions|
    ensures forall k :: 0 <= k < |regions| ==> m.regions[k] == Optional(regions[k].value)
  {
    Municipio(
      Strip(code),
      Strip(nome),
      seq(|regions|, k requires 0 <= k < |regions| => Optional(regions[k].value)))
  }

  /**
   * One pass of the loop body of migrate_municipios: strip the code, then the
   * name (each raises on None); skip the row when either is empty; strip the
   * region columns (raising on None) and upsert.
   */
  function CleanStep(r: MunicipioRow): Step<Municipio> {
    if r.codigoIbge.None? || r.nomeMunicipio.None? then Raise
    else if Strip(r.codigoIbge.value) == "" || Strip(r.nomeMunicipio.value) == "" then Skip
    else if None in r.regions then Raise
    else Upsert(Clean(r.codigoIbge.value, r.nomeMunicipio.value, r.regions))
  }

  /** All characters of `s` are whitespace (`s.strip()` is falsy). */
  predicate Blank(s: string) {
    forall k :: 0 <= k < |s| ==> IsSpace(s[k])
  }

  /**
   * A row raises exactly when its code or name is None, or it is not skipped
   * and a region column is None; it is skipped exactly when code and name are
   * present and one of them is blank; an upserted record has a non-empty,
   * already stripped code and name, and each region is None exactly when its
   * column is blank.
   */
  lemma CleanStepOutcome(r: MunicipioRow)
    ensures CleanStep(r).Skip? <==>
      r.codigoIbge.Some? && r.nomeMunicipio.Some? && (Blank(r.codigoIbge.value) || Blank(r.nomeMunicipio.value))
    ensures CleanStep(r).Raise? <==>
      || r.codigoIbge.None? || r.nomeMunicipio.None?
      || (!Blank(r.codigoIbge.value) && !Blank(r.nomeMunicipio.value) && None in r.regions)
    ensures CleanStep(r).Upsert? ==>
      && CleanStep(r).record.codigoIbge == Strip(r.codigoIbge.value) != ""
      && CleanStep(r).record.nome == Strip(r.nomeMunicipio.value) != ""
      && Strip(CleanStep(r).record.codigoIbge) == CleanStep(r).record.codigoIbge
      && Strip(CleanStep(r).record.nome) == CleanStep(r).record.nome
      && |CleanStep(r).record.regions| == |r.regions|
      && forall k :: 0 <= k < |r.regions| ==>
           (CleanStep(r).record.regions[k].None? <==> Blank(r.regions[k].value))
  {
    if r.codigoIbge.Some? && r.nomeMunicipio.Some? {
      StripEmptyIffBlank(r.codigoIbge.value);
      StripEmptyIffBlank(r.nomeMunicipio.value);
      if CleanStep(r).Upsert? {
        StripIdempotent(r.codigoIbge.value);
        StripIdempotent(r.nomeMunicipio.value);
        forall k | 0 <= k < |r.regions|
          ensures CleanStep(r).record.regions[k].None? <==> Blank(r.regions[k].value)
        {
          OptionalStripped(r.regions[k].value);
        }
      }
    }
  }

  /**
   * The records the loop upserts when every execute succeeds: those of the
   * rows before the first raising row, skipped rows left out, in order.
   */
  function Upserted<R, M>(f: R -> Step<M>, xs: seq<R>): (ys: seq<M>)
    ensures |ys| <= |xs|
  {
    if xs == [] then []
    else match f(xs[0])
      case Raise => []
      case Skip => Upserted(f, xs[1..])
      case Upsert(m) => [m] + Upserted(f, xs[1..])
  }

  /** No row of `xs` raises. */
  predicate RaiseFree<R, M>(f: R -> Step<M>, xs: seq<R>) {
    xs == [] || (!f(xs[0]).Raise? && RaiseFree(f, xs[1..]))
  }

  /** Rows are handled one after the other: the second part counts only if the first does not raise. */
  lemma {:induction false} UpsertedAppend<R, M>(f: R -> Step<M>, a: seq<R>, b: seq<R>)
    ensures Upserted(f, a + b) == Upserted(f, a) + if RaiseFree(f, a) then Upserted(f, b) else []
    ensures RaiseFree(f, a + b) <==> RaiseFree(f, a) && RaiseFree(f, b)
  {
    if a == [] {
      assert a + b == b;
    } else {
      assert (a + b)[1..] == a[1..] + b;
      assert (a + b)[0] == a[0];
      UpsertedAppend(f, a[1..], b);
    }
  }

  lemma UpsertedSingle<R, M>(f: R -> Step<M>, x: R)
    ensures Upserted(f, [x]) == if f(x).Upsert? then [f(x).record] else []
    ensures RaiseFree(f, [x]) <==> !f(x).Raise?
  {
    assert [x][1..] == [];
  }

  /** One more row: its record joins the others, and it raises or not. */
  lemma UpsertedStep<R, M>(f: R -> Step<M>, xs: seq<R>, i: nat)
    requires i < |xs| && RaiseFree(f, xs[..i])
    ensures Upserted(f, xs[..i + 1]) ==
      Upserted(f, xs[..i]) + if f(xs[i]).Upsert? then [f(xs[i]).record] else []
    ensures RaiseFree(f, xs[..i + 1]) <==> !f(xs[i]).Raise?
  {
    assert xs[..i + 1] == xs[..i] + [xs[i]];
    UpsertedAppend(f, xs[..i], [xs[i]]);
    UpsertedSingle(f, xs[i]);
  }

  /** Nothing after a raising row is upserted. */
  lemma UpsertedRaiseAt<R, M>(f: R -> Step<M>, xs: seq<R>, i: nat)
    requires i < |xs| && RaiseFree(f, xs[..i]) && f(xs[i]).Raise?
    ensures Upserted(f, xs) == Upserted(f, xs[..i])
    ensures !RaiseFree(f, xs)
  {
    var front, back := xs[..i + 1], xs[i + 1..];
    assert front + back == xs;
    UpsertedStep(f, xs, i);
    UpsertedAppend(f, front, back);
  }

  /** What the rows before an upserted row yield is a strict prefix of the whole. */
  lemma UpsertedPrefix<R, M>(f: R -> Step<M>, xs: seq<R>, i: nat)
    requires i < |xs| && RaiseFree(f, xs[..i]) && f(xs[i]).Upsert?
    ensures |Upserted(f, xs[..i])| < |Upserted(f, xs)|
    ensures Upserted(f, xs)[..|Upserted(f, xs[..i])|] == Upserted(f, xs[..i])
  {
    var front, back := xs[..i + 1], xs[i + 1..];
    assert front + back == xs;
    UpsertedStep(f, xs, i);
    UpsertedAppend(f, front, back);
    var rest := if RaiseFree(f, front) then Upserted(f, back) else [];
    assert Upserted(f, xs) == Upserted(f, xs[..i]) + [f(xs[i]).record] + rest;
  }

  /**
   * Every row yields a record exactly when all of them are upserted; nothing
   * is upserted and nothing raises exactly when every row is skipped.
   */
  lemma {:induction false} UpsertedCount<R, M>(f: R -> Step<M>, xs: seq<R>)
    ensures |Upserted(f, xs)| == |xs| <==> forall i :: 0 <= i < |xs| ==> f(xs[i]).Upsert?
    ensures Upserted(f, xs) == [] && RaiseFree(f, xs) <==> forall i :: 0 <= i < |xs| ==> f(xs[i]).Skip?
  {
    if xs != [] {
      UpsertedCount(f, xs[1..]);
      assert forall i :: 1 <= i < |xs| ==> xs[i] == xs[1..][i - 1];
    }
  }

  /** The municipios the loop upserts when every execute succeeds. */
  function Kept(data: seq<MunicipioRow>): seq<Municipio> {
    Upserted(CleanStep, data)
  }

  /** Rows are handled one by one, and a raising row ends the run. */
  lemma KeptAppend(a: seq<MunicipioRow>, b: seq<MunicipioRow>)
    ensures Kept(a + b) == Kept(a) + if RaiseFree(CleanStep, a) then Kept(b) else []
  {
    UpsertedAppend(CleanStep, a, b);
  }

  /**
   * Every row is upserted iff none is skipped or raises; nothing is upserted
   * and nothing raises iff every row is skipped.
   */
  lemma KeptCount(data: seq<MunicipioRow>)
    ensures |Kept(data)| == |data| <==> forall i :: 0 <= i < |data| ==> CleanStep(data[i]).Upsert?
    ensures Kept(data) == [] && RaiseFree(CleanStep, data) <==> forall i :: 0 <= i < |data| ==> CleanStep(data[i]).Skip?
  {
    UpsertedCount(CleanStep, data);
  }

  const CommitEvery: nat := 100

  /** The counts at which the loop commits: one per multiple of 100 reached. */
  function CommitPoints(n: nat): seq<nat> {
    if n == 0 then []
    else CommitPoints(n - 1) + if n % CommitEvery == 0 then [n] else []
  }

  /** The commit points are exactly the positive multiples of 100 up to n, increasing. */
  lemma {:induction false} CommitPointsMultiples(n: nat)
    ensures forall c :: c in CommitPoints(n) <==> 0 < c <= n && c % CommitEvery == 0
    ensures forall i, j :: 0 <= i < j < |CommitPoints(n)| ==> CommitPoints(n)[i] < CommitPoints(n)[j]
  {
    if n > 0 {
      var before := CommitPoints(n - 1);
      CommitPointsMultiples(n - 1);
      assert forall i :: 0 <= i < |before| ==> before[i] in before;
    }
  }

  /**
   * The upsert loop of migrate_municipios, whatever the row handling `clean`
   * does: one upsert per upserted row, a commit after every 100th and once at
   * the end. A raising row or a failing execute rolls back and returns the
   * count reached so far. `commits` lists the count at each commit.
   */
  method UpsertLoop<R, M>(data: seq<R>, clean: R -> Step<M>, execOk: nat -> bool)
    returns (count: nat, executed: seq<M>, commits: seq<nat>)
    ensures count == |executed| == OkPrefix(execOk, |Upserted(clean, data)|)
    ensures executed == Upserted(clean, data)[..count]
    ensures commits == CommitPoints(count) +
      if count == |Upserted(clean, data)| && RaiseFree(clean, data) then [count] else []
  {
    count := 0;
    executed := [];
    commits := [];
    for i := 0 to |data|
      invariant executed == Upserted(clean, data[..i])
      invariant RaiseFree(clean, data[..i])
      invariant count == |executed|
      invariant AllOk(execOk, count)
      invariant commits == CommitPoints(count)
    {
      var step := clean(data[i]);
      UpsertedStep(clean, data, i);
      if step.Raise? {
        UpsertedRaiseAt(clean, data, i);
        OkPrefixAll(execOk, count);
        return count, executed, commits;
      }
      if step.Skip? {
        continue;
      }
      if !execOk(count) {
        UpsertedPrefix(clean, data, i);
        OkPrefixStops(execOk, count, |Upserted(clean, data)|);
        return count, executed, commits;
      }
      AllOkExtend(execOk, count);
      executed := executed + [step.record];
      count := count + 1;
      if count % CommitEvery == 0 {
        commits := commits + [count];
      }
    }
    assert data[..|data|] == data;
    OkPrefixAll(execOk, count);
    assert executed == Upserted(clean, data)[..count];
    commits := commits + [count];
  }

  /**
   * migrate_municipios: an empty file returns 0 without a commit; otherwise
   * the upsert loop runs with the row handling of CleanStep.
   */
  method MigrateMunicipios(data: seq<MunicipioRow>, execOk: nat -> bool)
    returns (count: nat, executed: seq<Municipio>, commits: seq<nat>)
    ensures count == |executed| == OkPrefix(execOk, |Kept(data)|)
    ensures executed == Kept(data)[..count]
    ensures data == [] ==> count == 0 && commits == []
    ensures data != [] ==>
      commits == CommitPoints(count) + if count == |Kept(data)| && RaiseFree(CleanStep, data) then [count] else []
  {
    if data == [] {
      return 0, [], [];
    }
    count, executed, commits := UpsertLoop(data, CleanStep, execOk);
  }

  /**
   * After a failure at count n the rows since the last commit are rolled
   * back: the last commit covers n - n % 100 rows, yet n is returned.
   */
  lemma {:induction false} LastCommitCovers(n: nat)
    ensures CommitPoints(n) == [] <==> n < CommitEvery
    ensures n >= CommitEvery ==> CommitPoints(n)[|CommitPoints(n)| - 1] == n - n % CommitEvery
  {
    CommitPointsMultiples(n);
    if n >= CommitEvery {
      var last := n - n % CommitEvery;
      var cs := CommitPoints(n);
      assert last in cs;
      var top := cs[|cs| - 1];
      assert top in cs;
      var k :| 0 <= k < |cs| && cs[k] == last;
      assert last <= top;
    } else {
      NoCommitBelow(n);
    }
  }

  lemma {:induction false} NoCommitBelow(n: nat)
    requires n < CommitEvery
    ensures CommitPoints(n) == []
  {
    if n > 0 {
      NoCommitBelow(n - 1);
    }
  }

  // ---------------------------------------------------------------------------
  // validate_data
  // ---------------------------------------------------------------------------

  const ExpectedCombinations: nat := 6

  datatype Issue = InvalidMunicipios(count: nat) | WrongCombinations(count: nat) | OrphanTemas(count: nat)

  /**
   * validate_data: three COUNT queries, each reply an integer or a failure.
   * Any failure makes the verdict false; otherwise the issues found are
   * listed in query order and the verdict is that there are none.
   */
  method ValidateData(invalidMunicipios: Reply<nat>, combinations: Reply<nat>, orphanTemas: Reply<nat>)
    returns (ok: bool, issues: seq<Issue>)
    ensures ok <==> invalidMunicipios == Ok(0) && combinations == Ok(ExpectedCombinations) && orphanTemas == Ok(0)
    ensures ok ==> issues == []
    ensures invalidMunicipios.Ok? && combinations.Ok? && orphanTemas.Ok? ==>
      && (InvalidMunicipios(invalidMunicipios.value) in issues <==> invalidMunicipios.value > 0)
      && (WrongCombinations(combinations.value) in issues <==> combinations.value != ExpectedCombinations)
      && (OrphanTemas(orphanTemas.value) in issues <==> orphanTemas.value > 0)
      && |issues| <= 3
  {
    issues := [];
    if invalidMunicipios.Err? {
      return false, issues;
    }
    if invalidMunicipios.value > 0 {
      issues := issues + [InvalidMunicipios(invalidMunicipios.value)];
    }
    if combinations.Err? {
      return false, issues;
    }
    if combinations.value != ExpectedCombinations {
      issues := issues + [WrongCombinations(combinations.value)];
    }
    if orphanTemas.Err? {
      return false, issues;
    }
    if orphanTemas.value > 0 {
      issues := issues + [OrphanTemas(orphanTemas.value)];
    }
    ok := issues == [];
  }

  // ---------------------------------------------------------------------------
  // main
  // ---------------------------------------------------------------------------

  const MunicipiosCsv: string := "municipios.csv"

  /** CSV_TABLE_MAPPING, in its declared order. */
  const CsvTableMapping: seq<(string, string)> := [
    ("municipios.csv", "t_municipios"),
    ("regiao.csv", "t_regiao"),
    ("regionalizacao_regiao.csv", "t_regionalizacao_regiao"),
    ("tema.csv", "t_tema"),
    ("tipo_tema_tema.csv", "t_tipo_tema_tema")
  ]

  /** The mapping entries the generic loop loads, in mapping order. */
  function GenericEntries(mapping: seq<(string, string)>, present: set<string>): (es: seq<(string, string)>)
    ensures forall e :: e in es <==> e in mapping && e.0 in present && e.0 != MunicipiosCsv
  {
    if mapping == [] then []
    else
      var rest := GenericEntries(mapping[1..], present);
      assert forall e :: e in mapping <==> e == mapping[0] || e in mapping[1..];
      if mapping[0].0 in present && mapping[0].0 != MunicipiosCsv then [mapping[0]] + rest else rest
  }

  /** Sum of what insert_data returns for each loaded file. */
  function SumInserted(es: seq<(string, string)>, csv: string -> seq<CsvRow>, db: string -> nat -> bool): nat {
    if es == [] then 0 else InsertTotal(csv(es[0].0), DefaultBatchSize, db(es[0].0)) + SumInserted(es[1..], csv, db)
  }

  /**
   * main's full migration: municipios first when its file exists, then every
   * other mapped file that exists through insert_data, adding up the counts.
   * `present` are the files found in the CSV directory, `municipios` and
   * `csv(f)` what read_csv returns for them ([] when unreadable).
   */
  method MigrateAll(present: set<string>, municipios: seq<MunicipioRow>, municipiosOk: nat -> bool, csv: string -> seq<CsvRow>, db: string -> nat -> bool)
    returns (total: nat, loaded: seq<(string, string)>)
    ensures loaded == GenericEntries(CsvTableMapping, present)
    ensures forall e :: e in loaded ==> e.1 != "t_municipios"
    ensures total ==
      (if MunicipiosCsv in present then OkPrefix(municipiosOk, |Kept(municipios)|) else 0)
      + SumInserted(loaded, csv, db)
  {
    total := 0;
    if MunicipiosCsv in present {
      var count, _, _ := MigrateMunicipios(municipios, municipiosOk);
      total := total + count;
    }
    ghost var base := total;
    loaded := [];
    for i := 0 to |CsvTableMapping|
      invariant loaded == GenericEntries(CsvTableMapping[..i], present)
      invariant total == base + SumInserted(loaded, csv, db)
    {
      var (csvFile, tableName) := CsvTableMapping[i];
      assert CsvTableMapping[..i + 1] == CsvTableMapping[..i] + [CsvTableMapping[i]];
      GenericEntriesAppend(CsvTableMapping[..i], CsvTableMapping[i], present);
      if csvFile in present && csvFile != MunicipiosCsv {
        var inserted, _, _ := InsertData(csv(csvFile), DefaultBatchSize, db(csvFile));
        SumInsertedAppend(loaded, (csvFile, tableName), csv, db);
        loaded := loaded + [(csvFile, tableName)];
        total := total + inserted;
      }
    }
    assert CsvTableMapping[..|CsvTableMapping|] == CsvTableMapping;
  }

  lemma {:induction false} GenericEntriesAppend(mapping: seq<(string, string)>, e: (string, string), present: set<string>)
    ensures GenericEntries(mapping + [e], present) ==
      GenericEntries(mapping, present) + if e.0 in present && e.0 != MunicipiosCsv then [e] else []
    decreases |mapping|
  {
    if mapping == [] {
      assert [e][1..] == [];
    } else {
      assert (mapping + [e])[1..] == mapping[1..] + [e];
      GenericEntriesAppend(mapping[1..], e, present);
    }
  }

  lemma {:induction false} SumInsertedAppend(es: seq<(string, string)>, e: (string, string), csv: string -> seq<CsvRow>, db: string -> nat -> bool)
    ensures SumInserted(es + [e], csv, db) == SumInserted(es, csv, db) + InsertTotal(csv(e.0), DefaultBatchSize, db(e.0))
    decreases |es|
  {
    if es == [] {
      assert [e][1..] == [];
    } else {
      assert (es + [e])[1..] == es[1..] + [e];
      SumInsertedAppend(es[1..], e, csv, db);
    }
  }
}
