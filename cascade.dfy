/**
 * The cascading rules of the publication form (src/frontend/scripts/validation.js):
 * three relationship tables decide which (parent, child) pairs are allowed
 * (Classe -> Tipo do Mapa, Tipo de Regionalizacao -> Regiao, Tipo de Tema -> Tema),
 * and each handler is a transition of the form's state. The transitions are
 * functions here; module Form runs them as methods of the form widget.
 */
module Cascade {
  import opened Oracle

  type Key = string

  /** A row of a relationship table; `text` is the child's display name. */
  datatype Row = Row(parent: Key, child: Key, text: string)

  /** A row of the theme domain table t_tema. */
  datatype Tema = Tema(id: Key, nome: string)

  /**
   * What each queried layer answers; every request to a layer gets its reply.
   * classeTipo: t_classe_mapa_tipo_mapa, regionalizacaoRegiao:
   * t_regionalizacao_regiao, tipoTemaTema: t_tipo_tema_tema, temas: t_tema.
   */
  datatype Services = Services(
    classeTipo: Reply<seq<Row>>,
    regionalizacaoRegiao: Reply<seq<Row>>,
    tipoTemaTema: Reply<seq<Row>>,
    temas: Reply<seq<Tema>>)

  // ---------------------------------------------------------------------------
  // Pair validation
  // ---------------------------------------------------------------------------

  predicate Matches(r: Row, p: Key, c: Key) {
    r.parent == p && r.child == c
  }

  /** The answer of a count-only query filtering both keys by equality. */
  function CountMatches(t: seq<Row>, p: Key, c: Key): (n: nat)
    ensures n <= |t|
    ensures n == 0 <==> forall i :: 0 <= i < |t| ==> !Matches(t[i], p, c)
  {
    if t == [] then 0
    else (if Matches(t[0], p, c) then 1 else 0) + CountMatches(t[1..], p, c)
  }

  /** Row `i` is the one and only row of `t` holding the pair (p, c). */
  predicate UniqueMatch(t: seq<Row>, p: Key, c: Key, i: int) {
    0 <= i < |t| && Matches(t[i], p, c)
    && forall j :: 0 <= j < |t| && Matches(t[j], p, c) ==> j == i
  }

  lemma {:induction false} CountOneIffUnique(t: seq<Row>, p: Key, c: Key)
    ensures CountMatches(t, p, c) == 1 <==> exists i :: UniqueMatch(t, p, c, i)
  {
    if t != [] {
      var rest := t[1..];
      CountOneIffUnique(rest, p, c);
      if Matches(t[0], p, c) {
        if CountMatches(t, p, c) == 1 {
          forall j | 1 <= j < |t| ensures !Matches(t[j], p, c) {
            assert t[j] == rest[j - 1];
          }
          assert UniqueMatch(t, p, c, 0);
        }
        if exists i :: UniqueMatch(t, p, c, i) {
          var i :| UniqueMatch(t, p, c, i);
          forall k | 0 <= k < |rest| ensures !Matches(rest[k], p, c) {
            assert rest[k] == t[k + 1];
          }
        }
      } else {
        if CountMatches(t, p, c) == 1 {
          var i :| UniqueMatch(rest, p, c, i);
          forall j | 0 <= j < |t| && Matches(t[j], p, c) ensures j == i + 1 {
            assert t[j] == rest[j - 1];
          }
          assert UniqueMatch(t, p, c, i + 1);
        }
        if exists i :: UniqueMatch(t, p, c, i) {
          var i :| UniqueMatch(t, p, c, i);
          forall j | 0 <= j < |rest| && Matches(rest[j], p, c) ensures j == i - 1 {
            assert rest[j] == t[j + 1];
          }
          assert UniqueMatch(rest, p, c, i - 1);
        }
      }
    }
  }

  /**
   * validateClasseTipo, validateRegionalizacaoRegiao and validateTipoTemaTema
   * (one definition; they differ only in the table queried): an empty key
   * gives false without a query, a failed query gives false, and otherwise
   * the answer is whether the count-only query returned exactly 1.
   */
  function IsValidPair(table: Reply<seq<Row>>, p: Key, c: Key): (valid: bool)
    ensures valid ==> p != "" && c != "" && table.Ok?
  {
    if p == "" || c == "" then false
    else match table
      case Err => false
      case Ok(t) => CountMatches(t, p, c) == 1
  }

  /**
   * The pair is valid exactly when both keys are present, the query succeeds
   * and ONE row holds the pair: no row, or two or more, both mean invalid.
   */
  lemma ValidPairIffUniqueRow(table: Reply<seq<Row>>, p: Key, c: Key)
    ensures IsValidPair(table, p, c) <==>
      p != "" && c != "" && table.Ok? && exists i :: UniqueMatch(table.value, p, c, i)
  {
    if table.Ok? {
      CountOneIffUnique(table.value, p, c);
    }
  }

  /** Two rows holding the same pair make it invalid (the fail-safe reading of a duplicate). */
  lemma DuplicatePairInvalid(t: seq<Row>, p: Key, c: Key, i: int, j: int)
    requires 0 <= i < j < |t| && Matches(t[i], p, c) && Matches(t[j], p, c)
    ensures !IsValidPair(Ok(t), p, c)
  {
    ValidPairIffUniqueRow(Ok(t), p, c);
  }

  /** No pair appears in two rows. */
  predicate NoDuplicatePairs(t: seq<Row>) {
    forall i, j :: 0 <= i < j < |t| ==> !Matches(t[j], t[i].parent, t[i].child)
  }

  /** In a table without duplicates, validity is plain membership of the pair. */
  lemma UniqueTableValidIffPresent(t: seq<Row>, p: Key, c: Key)
    requires NoDuplicatePairs(t)
    ensures IsValidPair(Ok(t), p, c) <==> p != "" && c != "" && exists i :: 0 <= i < |t| && Matches(t[i], p, c)
  {
    if exists i :: 0 <= i < |t| && Matches(t[i], p, c) {
      var i :| 0 <= i < |t| && Matches(t[i], p, c);
      forall j | 0 <= j < |t| && j != i ensures !Matches(t[j], p, c) {
        if j < i {
          assert !Matches(t[i], t[j].parent, t[j].child);
        } else {
          assert !Matches(t[j], t[i].parent, t[i].child);
        }
      }
      assert UniqueMatch(t, p, c, i);
    }
    ValidPairIffUniqueRow(Ok(t), p, c);
  }

  /**
   * The Classe/Tipo example: ("01","02") is allowed; ("02","02") is not, nor
   * a pair with an empty key, nor any pair when the query fails.
   */
  lemma ClasseTipoExample()
    ensures IsValidPair(Ok([Row("01", "01", ""), Row("01", "02", ""), Row("02", "01", "")]), "01", "02")
    ensures !IsValidPair(Ok([Row("01", "01", ""), Row("01", "02", ""), Row("02", "01", "")]), "02", "02")
    ensures !IsValidPair(Ok([Row("01", "01", ""), Row("01", "02", ""), Row("02", "01", "")]), "", "02")
    ensures !IsValidPair(Ok([Row("01", "01", ""), Row("01", "02", ""), Row("02", "01", "")]), "01", "")
    ensures !IsValidPair(Err, "01", "02")
  {
    var t := [Row("01", "01", ""), Row("01", "02", ""), Row("02", "01", "")];
    assert UniqueMatch(t, "01", "02", 1);
    ValidPairIffUniqueRow(Ok(t), "01", "02");
  }

  // ---------------------------------------------------------------------------
  // Dependent-field options
  // ---------------------------------------------------------------------------

  /** An entry of a dropdown: the stored value and the text shown. */
  datatype Choice = Choice(value: Key, text: string)

  /**
   * The rows a `parent = p` query returns, in the service's order: every row
   * with that parent as often as the table holds it, and no other row.
   */
  function RowsFor(t: seq<Row>, p: Key): (rs: seq<Row>)
    ensures |rs| <= |t|
    ensures forall r :: r in rs <==> r in t && r.parent == p
  {
    if t == [] then []
    else (if t[0].parent == p then [t[0]] else []) + RowsFor(t[1..], p)
  }

  /** Each row with the parent comes back as many times as the table holds it. */
  lemma {:induction false} RowsForCounts(t: seq<Row>, p: Key)
    ensures forall r :: multiset(RowsFor(t, p))[r] == if r.parent == p then multiset(t)[r] else 0
  {
    if t != [] {
      RowsForCounts(t[1..], p);
      assert t == [t[0]] + t[1..];
    }
  }

  /** The query keeps the table's order: filtering distributes over concatenation. */
  lemma {:induction false} RowsForAppend(a: seq<Row>, b: seq<Row>, p: Key)
    ensures RowsFor(a + b, p) == RowsFor(a, p) + RowsFor(b, p)
  {
    if a == [] {
      assert a + b == b;
    } else {
      assert (a + b)[1..] == a[1..] + b;
      RowsForAppend(a[1..], b, p);
    }
  }

  /** `features.map(f => ({value: id_regiao, text: nome_regiao}))`. */
  function RegiaoChoices(rows: seq<Row>): (cs: seq<Choice>)
    ensures |cs| == |rows|
    ensures forall i :: 0 <= i < |rows| ==> cs[i] == Choice(rows[i].child, rows[i].text)
  {
    seq(|rows|, i requires 0 <= i < |rows| => Choice(rows[i].child, rows[i].text))
  }

  /** The theme ids a relationship query returned, in order. */
  function ChildIds(rows: seq<Row>): (ids: seq<Key>)
    ensures |ids| == |rows|
    ensures forall i :: 0 <= i < |rows| ==> ids[i] == rows[i].child
  {
    seq(|rows|, i requires 0 <= i < |rows| => rows[i].child)
  }

  /**
   * The rows an `id_tema IN (ids)` query returns, in the service's order:
   * every tema whose id is listed, as often as t_tema holds it, and no other.
   */
  function TemasIn(ts: seq<Tema>, ids: seq<Key>): (r: seq<Tema>)
    ensures |r| <= |ts|
    ensures forall x :: x in r <==> x in ts && x.id in ids
  {
    if ts == [] then []
    else (if ts[0].id in ids then [ts[0]] else []) + TemasIn(ts[1..], ids)
  }

  /** Each listed tema comes back as many times as t_tema holds it. */
  lemma {:induction false} TemasInCounts(ts: seq<Tema>, ids: seq<Key>)
    ensures forall x :: multiset(TemasIn(ts, ids))[x] == if x.id in ids then multiset(ts)[x] else 0
  {
    if ts != [] {
      TemasInCounts(ts[1..], ids);
      assert ts == [ts[0]] + ts[1..];
    }
  }

  /** The query keeps t_tema's order: filtering distributes over concatenation. */
  lemma {:induction false} TemasInAppend(a: seq<Tema>, b: seq<Tema>, ids: seq<Key>)
    ensures TemasIn(a + b, ids) == TemasIn(a, ids) + TemasIn(b, ids)
  {
    if a == [] {
      assert a + b == b;
    } else {
      assert (a + b)[1..] == a[1..] + b;
      TemasInAppend(a[1..], b, ids);
    }
  }

  /** `features.map(f => ({value: id_tema, text: nome_tema}))`. */
  function TemaChoices(ts: seq<Tema>): (cs: seq<Choice>)
    ensures |cs| == |ts|
    ensures forall i :: 0 <= i < |ts| ==> cs[i] == Choice(ts[i].id, ts[i].nome)
  {
    seq(|ts|, i requires 0 <= i < |ts| => Choice(ts[i].id, ts[i].nome))
  }

  // ---------------------------------------------------------------------------
  // Form state
  // ---------------------------------------------------------------------------

  datatype Field =
    | IdClasseMapa | IdTipoMapa | IdAno | IdRegiao | CodigoEscala | CodigoCor
    | IdTipoRegionalizacao | IdTema | IdTipoTema

  /** The messages a handler attaches to a field. */
  datatype FieldError =
    | Required | InvalidClasseTipo | SelectClasseFirst
    | NoRegioesFound | ErrorLoadingRegioes | NoTemasFound | ErrorLoadingTemas

  /** Values, field errors, dropdown options and enabled flags of the form widget. */
  datatype FormState = FormState(
    values: map<Field, string>,
    errors: map<Field, FieldError>,
    options: map<Field, seq<Choice>>,
    enabled: map<Field, bool>)

  /** `formWidget.getValue(f)`; an absent value reads as "" (falsy). */
  function ValueOf(values: map<Field, string>, f: Field): string {
    if f in values then values[f] else ""
  }

  lemma UpdateSame<K, V>(m: map<K, V>, k: K, v: V)
    requires k in m && m[k] == v
    ensures m[k := v] == m
  {
  }

  lemma RemoveAbsent<K, V>(m: map<K, V>, k: K)
    requires k !in m
    ensures m - {k} == m
  {
  }

  /** `s'` differs from `s` at most on the fields in `touched`. */
  predicate SameOutside(s: FormState, s': FormState, touched: set<Field>) {
    forall f :: f !in touched ==>
      && (f in s'.values <==> f in s.values) && (f in s.values ==> s'.values[f] == s.values[f])
      && (f in s'.errors <==> f in s.errors) && (f in s.errors ==> s'.errors[f] == s.errors[f])
      && (f in s'.options <==> f in s.options) && (f in s.options ==> s'.options[f] == s.options[f])
      && (f in s'.enabled <==> f in s.enabled) && (f in s.enabled ==> s'.enabled[f] == s.enabled[f])
  }

  /**
   * loadRegioesValidas(parent): four outcomes. Empty parent: no options, field
   * disabled. Query failed: load error on the parent, field disabled, options
   * and value kept. No row: "none found" on the parent, no options, disabled.
   * Rows: options in row order, field enabled, value and parent error cleared.
   */
  function LoadRegioes(s: FormState, parent: Key, reply: Reply<seq<Row>>): (s': FormState)
    ensures IdRegiao in s'.enabled && (s'.enabled[IdRegiao] ==> parent != "" && reply.Ok?)
  {
    if parent == "" then
      s.(options := s.options[IdRegiao := []], enabled := s.enabled[IdRegiao := false])
    else match reply
      case Err =>
        s.(errors := s.errors[IdTipoRegionalizacao := ErrorLoadingRegioes],
           enabled := s.enabled[IdRegiao := false])
      case Ok(t) =>
        var rows := RowsFor(t, parent);
        if rows == [] then
          s.(errors := s.errors[IdTipoRegionalizacao := NoRegioesFound],
             options := s.options[IdRegiao := []],
             enabled := s.enabled[IdRegiao := false])
        else
          var opts := RegiaoChoices(rows);
          s.(values := s.values - {IdRegiao},
             errors := s.errors - {IdTipoRegionalizacao},
             options := s.options[IdRegiao := opts],
             enabled := s.enabled[IdRegiao := true])
  }

  /**
   * What loadRegioesValidas promises about the state `s'` it leaves behind,
   * branch by branch; no branch touches any field other than the região
   * field and the error of the tipo de regionalização field.
   */
  ghost predicate RegioesLoaded(s: FormState, parent: Key, reply: Reply<seq<Row>>, s': FormState) {
    && IdRegiao in s'.enabled
    && (s'.enabled[IdRegiao] <==> parent != "" && reply.Ok? && exists r :: r in reply.value && r.parent == parent)
    && (parent == "" ==>
          && s'.values == s.values && s'.errors == s.errors
          && s'.options == s.options[IdRegiao := []] && s'.enabled == s.enabled[IdRegiao := false])
    && (parent != "" && reply.Err? ==>
          && s'.values == s.values && s'.errors == s.errors[IdTipoRegionalizacao := ErrorLoadingRegioes]
          && s'.options == s.options && s'.enabled == s.enabled[IdRegiao := false])
    && (parent != "" && reply.Ok? && RowsFor(reply.value, parent) == [] ==>
          && s'.values == s.values && s'.errors == s.errors[IdTipoRegionalizacao := NoRegioesFound]
          && s'.options == s.options[IdRegiao := []] && s'.enabled == s.enabled[IdRegiao := false])
    && (parent != "" && reply.Ok? && RowsFor(reply.value, parent) != [] ==>
          && s'.values == s.values - {IdRegiao} && s'.errors == s.errors - {IdTipoRegionalizacao}
          && s'.options == s.options[IdRegiao := RegiaoChoices(RowsFor(reply.value, parent))]
          && s'.enabled == s.enabled[IdRegiao := true]
          && forall ch :: ch in s'.options[IdRegiao] <==> Row(parent, ch.value, ch.text) in reply.value)
  }

  /**
   * The four outcomes of loadRegioesValidas: only the two fields change, each
   * map exactly as its branch says; the região field is enabled exactly when some row of the answer has the
   * parent, and then offers one option per such row, in answer order, and
   * nothing else; a failed query and an empty answer each set their error.
   */
  lemma LoadRegioesEffect(s: FormState, parent: Key, reply: Reply<seq<Row>>)
    ensures RegioesLoaded(s, parent, reply, LoadRegioes(s, parent, reply))
  {
    if parent != "" && reply.Ok? {
      var rows := RowsFor(reply.value, parent);
      if rows == [] {
        assert forall r :: r in reply.value ==> r.parent != parent;
      } else {
        assert rows[0] in reply.value;
        RegiaoOptionsExact(reply.value, parent);
      }
    }
  }

  /** The options built from the answer are exactly the table's rows for the parent. */
  lemma RegiaoOptionsExact(t: seq<Row>, parent: Key)
    ensures forall ch :: ch in RegiaoChoices(RowsFor(t, parent)) <==> Row(parent, ch.value, ch.text) in t
  {
    var rows := RowsFor(t, parent);
    var opts := RegiaoChoices(rows);
    forall ch ensures ch in opts <==> Row(parent, ch.value, ch.text) in t {
      if ch in opts {
        var i :| 0 <= i < |opts| && opts[i] == ch;
        assert rows[i] == Row(parent, ch.value, ch.text);
      }
      if Row(parent, ch.value, ch.text) in t {
        var i :| 0 <= i < |rows| && rows[i] == Row(parent, ch.value, ch.text);
        assert opts[i] == ch;
      }
    }
  }

  /** Loading the same parent twice against the same reply changes nothing more. */
  lemma LoadRegioesIdempotent(s: FormState, parent: Key, reply: Reply<seq<Row>>)
    ensures LoadRegioes(LoadRegioes(s, parent, reply), parent, reply) == LoadRegioes(s, parent, reply)
  {
    var s1 := LoadRegioes(s, parent, reply);
    if parent == "" {
      UpdateSame(s1.options, IdRegiao, []);
      UpdateSame(s1.enabled, IdRegiao, false);
    } else if reply.Err? {
      UpdateSame(s1.errors, IdTipoRegionalizacao, ErrorLoadingRegioes);
      UpdateSame(s1.enabled, IdRegiao, false);
    } else {
      var rows := RowsFor(reply.value, parent);
      if rows == [] {
        UpdateSame(s1.errors, IdTipoRegionalizacao, NoRegioesFound);
        UpdateSame(s1.options, IdRegiao, []);
        UpdateSame(s1.enabled, IdRegiao, false);
      } else {
        RemoveAbsent(s1.values, IdRegiao);
        RemoveAbsent(s1.errors, IdTipoRegionalizacao);
        UpdateSame(s1.options, IdRegiao, RegiaoChoices(rows));
        UpdateSame(s1.enabled, IdRegiao, true);
      }
    }
  }

  /**
   * Every option a successful load offers passes the pair validator against the
   * same table, provided the table has no duplicate pairs and no empty child.
   */
  lemma LoadedRegioesAreValidPairs(s: FormState, parent: Key, t: seq<Row>)
    requires NoDuplicatePairs(t)
    requires forall r :: r in t ==> r.child != ""
    ensures var s' := LoadRegioes(s, parent, Ok(t));
      forall ch :: ch in s'.options[IdRegiao] && s'.enabled[IdRegiao] ==> IsValidPair(Ok(t), parent, ch.value)
  {
    var s' := LoadRegioes(s, parent, Ok(t));
    LoadRegioesEffect(s, parent, Ok(t));
    forall ch | ch in s'.options[IdRegiao] && s'.enabled[IdRegiao]
      ensures IsValidPair(Ok(t), parent, ch.value)
    {
      var i :| 0 <= i < |t| && t[i] == Row(parent, ch.value, ch.text);
      UniqueTableValidIffPresent(t, parent, ch.value);
    }
  }

  /**
   * loadTemasValidos(parent): like LoadRegioes, but the labels come from a
   * second query on t_tema for the theme ids found; a failure of either query
   * is the load error. When the second query finds none of the ids the field
   * is still enabled, with no options.
   */
  function LoadTemas(s: FormState, parent: Key, rel: Reply<seq<Row>>, temas: Reply<seq<Tema>>): (s': FormState)
    ensures IdTema in s'.enabled && (s'.enabled[IdTema] ==> parent != "" && rel.Ok? && temas.Ok?)
  {
    if parent == "" then
      s.(options := s.options[IdTema := []], enabled := s.enabled[IdTema := false])
    else if rel.Err? then
      s.(errors := s.errors[IdTipoTema := ErrorLoadingTemas], enabled := s.enabled[IdTema := false])
    else
      var rows := RowsFor(rel.value, parent);
      if rows == [] then
        s.(errors := s.errors[IdTipoTema := NoTemasFound],
           options := s.options[IdTema := []],
           enabled := s.enabled[IdTema := false])
      else if temas.Err? then
        s.(errors := s.errors[IdTipoTema := ErrorLoadingTemas], enabled := s.enabled[IdTema := false])
      else
        var ids := ChildIds(rows);
        var found := TemasIn(temas.value, ids);
        var opts := TemaChoices(found);
        s.(values := s.values - {IdTema},
           errors := s.errors - {IdTipoTema},
           options := s.options[IdTema := opts],
           enabled := s.enabled[IdTema := true])
  }

  /**
   * What loadTemasValidos promises about the state `s'` it leaves behind,
   * branch by branch; no branch touches any field other than the tema field
   * and the error of the tipo de tema field.
   */
  ghost predicate TemasLoaded(s: FormState, parent: Key, rel: Reply<seq<Row>>, temas: Reply<seq<Tema>>, s': FormState) {
    && IdTema in s'.enabled
    && (s'.enabled[IdTema] <==>
          parent != "" && rel.Ok? && temas.Ok? && exists r :: r in rel.value && r.parent == parent)
    && (parent == "" ==>
          && s'.values == s.values && s'.errors == s.errors
          && s'.options == s.options[IdTema := []] && s'.enabled == s.enabled[IdTema := false])
    && (parent != "" && (rel.Err? || (temas.Err? && RowsFor(rel.value, parent) != [])) ==>
          && s'.values == s.values && s'.errors == s.errors[IdTipoTema := ErrorLoadingTemas]
          && s'.options == s.options && s'.enabled == s.enabled[IdTema := false])
    && (parent != "" && rel.Ok? && RowsFor(rel.value, parent) == [] ==>
          && s'.values == s.values && s'.errors == s.errors[IdTipoTema := NoTemasFound]
          && s'.options == s.options[IdTema := []] && s'.enabled == s.enabled[IdTema := false])
    && (parent != "" && rel.Ok? && RowsFor(rel.value, parent) != [] && temas.Ok? ==>
          && s'.values == s.values - {IdTema} && s'.errors == s.errors - {IdTipoTema}
          && s'.options == s.options[IdTema := TemaChoices(TemasIn(temas.value, ChildIds(RowsFor(rel.value, parent))))]
          && s'.enabled == s.enabled[IdTema := true]
          && forall ch :: ch in s'.options[IdTema] <==>
               Tema(ch.value, ch.text) in temas.value
               && exists r :: r in rel.value && r.parent == parent && r.child == ch.value)
  }

  /**
   * The outcomes of loadTemasValidos: only the two fields change, each map
   * exactly as its branch says; the tema
   * field is enabled exactly when both queries answer and some relationship
   * row has the parent, and then offers, in t_tema's order, exactly the temas
   * related to the parent; each failure and an empty relationship answer set
   * their error.
   */
  lemma LoadTemasEffect(s: FormState, parent: Key, rel: Reply<seq<Row>>, temas: Reply<seq<Tema>>)
    ensures TemasLoaded(s, parent, rel, temas, LoadTemas(s, parent, rel, temas))
  {
    if parent != "" && rel.Ok? {
      var rows := RowsFor(rel.value, parent);
      if rows == [] {
        assert forall r :: r in rel.value ==> r.parent != parent;
      } else if temas.Ok? {
        assert rows[0] in rel.value;
        TemaOptionsExact(rel.value, temas.value, parent);
      }
    }
  }

  /** The options built from the answers are exactly the temas a row for the parent names. */
  lemma TemaOptionsExact(rel: seq<Row>, ts: seq<Tema>, parent: Key)
    ensures forall ch :: ch in TemaChoices(TemasIn(ts, ChildIds(RowsFor(rel, parent)))) <==>
      Tema(ch.value, ch.text) in ts && exists r :: r in rel && r.parent == parent && r.child == ch.value
  {
    forall ch | ch in TemaChoices(TemasIn(ts, ChildIds(RowsFor(rel, parent))))
      ensures Tema(ch.value, ch.text) in ts && exists r :: r in rel && r.parent == parent && r.child == ch.value
    {
      TemaOptionSound(rel, ts, parent, ch);
    }
    forall ch: Choice, r: Row | Tema(ch.value, ch.text) in ts && r in rel && r.parent == parent && r.child == ch.value
      ensures ch in TemaChoices(TemasIn(ts, ChildIds(RowsFor(rel, parent))))
    {
      TemaOptionComplete(rel, ts, parent, ch, r);
    }
  }

  lemma TemaOptionSound(rel: seq<Row>, ts: seq<Tema>, parent: Key, ch: Choice)
    requires ch in TemaChoices(TemasIn(ts, ChildIds(RowsFor(rel, parent))))
    ensures Tema(ch.value, ch.text) in ts && exists r :: r in rel && r.parent == parent && r.child == ch.value
  {
    var rows := RowsFor(rel, parent);
    var found := TemasIn(ts, ChildIds(rows));
    TemaOfChoice(found, ch);
    var r := ChildIdFrom(rows, ch.value);
    assert r in rel && r.parent == parent && r.child == ch.value;
  }

  lemma TemaOfChoice(found: seq<Tema>, ch: Choice)
    requires ch in TemaChoices(found)
    ensures Tema(ch.value, ch.text) in found
  {
    var opts := TemaChoices(found);
    var i :| 0 <= i < |opts| && opts[i] == ch;
    assert found[i] == Tema(ch.value, ch.text);
  }

  /** The row a returned theme id came from. */
  lemma ChildIdFrom(rows: seq<Row>, k: Key) returns (r: Row)
    requires k in ChildIds(rows)
    ensures r in rows && r.child == k
  {
    var ids := ChildIds(rows);
    var j :| 0 <= j < |ids| && ids[j] == k;
    r := rows[j];
  }

  lemma TemaOptionComplete(rel: seq<Row>, ts: seq<Tema>, parent: Key, ch: Choice, r: Row)
    requires Tema(ch.value, ch.text) in ts && r in rel && r.parent == parent && r.child == ch.value
    ensures ch in TemaChoices(TemasIn(ts, ChildIds(RowsFor(rel, parent))))
  {
    var rows := RowsFor(rel, parent);
    var ids := ChildIds(rows);
    var found := TemasIn(ts, ids);
    var opts := TemaChoices(found);
    var j :| 0 <= j < |rows| && rows[j] == r;
    assert ids[j] == ch.value;
    assert ch.value in ids;
    var i :| 0 <= i < |found| && found[i] == Tema(ch.value, ch.text);
    assert opts[i] == ch;
  }

  lemma LoadTemasIdempotent(s: FormState, parent: Key, rel: Reply<seq<Row>>, temas: Reply<seq<Tema>>)
    ensures LoadTemas(LoadTemas(s, parent, rel, temas), parent, rel, temas) == LoadTemas(s, parent, rel, temas)
  {
    var s1 := LoadTemas(s, parent, rel, temas);
    if parent == "" {
      UpdateSame(s1.options, IdTema, []);
      UpdateSame(s1.enabled, IdTema, false);
    } else if rel.Err? {
      UpdateSame(s1.errors, IdTipoTema, ErrorLoadingTemas);
      UpdateSame(s1.enabled, IdTema, false);
    } else {
      var rows := RowsFor(rel.value, parent);
      if rows == [] {
        UpdateSame(s1.errors, IdTipoTema, NoTemasFound);
        UpdateSame(s1.options, IdTema, []);
        UpdateSame(s1.enabled, IdTema, false);
      } else if temas.Err? {
        UpdateSame(s1.errors, IdTipoTema, ErrorLoadingTemas);
        UpdateSame(s1.enabled, IdTema, false);
      } else {
        RemoveAbsent(s1.values, IdTema);
        RemoveAbsent(s1.errors, IdTipoTema);
        UpdateSame(s1.options, IdTema, TemaChoices(TemasIn(temas.value, ChildIds(rows))));
        UpdateSame(s1.enabled, IdTema, true);
      }
    }
  }

  /**
   * onClasseMapaChange(value): with no Tipo, nothing happens; otherwise the
   * Tipo error is cleared when (value, Tipo) is valid, and else set while the
   * Tipo value is cleared. Afterwards a Tipo that remains is valid for `value`.
   */
  function OnClasseMapaChange(s: FormState, value: Key, reply: Reply<seq<Row>>): (s': FormState)
    ensures ValueOf(s.values, IdTipoMapa) == "" ==> s' == s
    ensures SameOutside(s, s', {IdTipoMapa}) && s'.options == s.options && s'.enabled == s.enabled
    ensures ValueOf(s'.values, IdTipoMapa) == "" || IsValidPair(reply, value, ValueOf(s'.values, IdTipoMapa))
    ensures ValueOf(s.values, IdTipoMapa) != "" ==>
      (ValueOf(s'.values, IdTipoMapa) != "" <==> IdTipoMapa !in s'.errors)
    ensures ValueOf(s.values, IdTipoMapa) != "" ==>
      (ValueOf(s'.values, IdTipoMapa) == ValueOf(s.values, IdTipoMapa) <==>
         IsValidPair(reply, value, ValueOf(s.values, IdTipoMapa)))
    ensures ValueOf(s.values, IdTipoMapa) != "" && IsValidPair(reply, value, ValueOf(s.values, IdTipoMapa)) ==>
      s'.values == s.values && s'.errors == s.errors - {IdTipoMapa}
    ensures ValueOf(s.values, IdTipoMapa) != "" && !IsValidPair(reply, value, ValueOf(s.values, IdTipoMapa)) ==>
      s'.errors == s.errors[IdTipoMapa := InvalidClasseTipo] && IdTipoMapa !in s'.values
  {
    var tipo := ValueOf(s.values, IdTipoMapa);
    if tipo == "" then s
    else if IsValidPair(reply, value, tipo) then s.(errors := s.errors - {IdTipoMapa})
    else s.(errors := s.errors[IdTipoMapa := InvalidClasseTipo], values := s.values - {IdTipoMapa})
  }

  lemma OnClasseMapaChangeIdempotent(s: FormState, value: Key, reply: Reply<seq<Row>>)
    ensures OnClasseMapaChange(OnClasseMapaChange(s, value, reply), value, reply) == OnClasseMapaChange(s, value, reply)
  {
  }

  /**
   * onTipoMapaChange(value): with no Classe, "select Classe first" is set and
   * Tipo cleared; otherwise (Classe, value) is validated, clearing the Tipo
   * error when valid, setting it and clearing Tipo when not.
   */
  function OnTipoMapaChange(s: FormState, value: Key, reply: Reply<seq<Row>>): (s': FormState)
    ensures SameOutside(s, s', {IdTipoMapa}) && s'.options == s.options && s'.enabled == s.enabled
    ensures ValueOf(s.values, IdClasseMapa) == "" ==>
      s'.errors == s.errors[IdTipoMapa := SelectClasseFirst] && IdTipoMapa !in s'.values
    ensures IdTipoMapa !in s'.errors <==> IsValidPair(reply, ValueOf(s.values, IdClasseMapa), value)
    ensures IdTipoMapa in s'.errors ==> IdTipoMapa !in s'.values
    ensures IsValidPair(reply, ValueOf(s.values, IdClasseMapa), value) ==>
      s'.values == s.values && s'.errors == s.errors - {IdTipoMapa}
    ensures ValueOf(s.values, IdClasseMapa) != "" && !IsValidPair(reply, ValueOf(s.values, IdClasseMapa), value) ==>
      s'.errors == s.errors[IdTipoMapa := InvalidClasseTipo]
  {
    var classe := ValueOf(s.values, IdClasseMapa);
    if classe == "" then
      s.(errors := s.errors[IdTipoMapa := SelectClasseFirst], values := s.values - {IdTipoMapa})
    else if IsValidPair(reply, classe, value) then
      s.(errors := s.errors - {IdTipoMapa})
    else
      s.(errors := s.errors[IdTipoMapa := InvalidClasseTipo], values := s.values - {IdTipoMapa})
  }

  /** With no Classe selected the outcome does not depend on the service: no query is made. */
  lemma OnTipoWithoutClasseIgnoresService(s: FormState, value: Key, r1: Reply<seq<Row>>, r2: Reply<seq<Row>>)
    requires ValueOf(s.values, IdClasseMapa) == ""
    ensures OnTipoMapaChange(s, value, r1) == OnTipoMapaChange(s, value, r2)
  {
  }

  // ---------------------------------------------------------------------------
  // Required fields and the whole-form check
  // ---------------------------------------------------------------------------

  const RequiredFields: seq<Field> := [
    IdClasseMapa, IdTipoMapa, IdAno, IdRegiao, CodigoEscala, CodigoCor,
    IdTipoRegionalizacao, IdTema, IdTipoTema]

  /** The fields among the first `n` of `fields` whose value is falsy, in order. */
  function MissingIn(fields: seq<Field>, values: map<Field, string>, n: nat): (m: seq<Field>)
    requires n <= |fields|
    ensures |m| <= n
  {
    if n == 0 then []
    else MissingIn(fields, values, n - 1) + if ValueOf(values, fields[n - 1]) == "" then [fields[n - 1]] else []
  }

  /** The fields of `fields` whose value is falsy, in the order of `fields`. */
  function Missing(fields: seq<Field>, values: map<Field, string>): seq<Field> {
    MissingIn(fields, values, |fields|)
  }

  /** A field is missing among the first `n` exactly when it is one of them and its value is empty. */
  lemma {:induction false} MissingInHas(fields: seq<Field>, values: map<Field, string>, n: nat, f: Field)
    requires n <= |fields|
    ensures f in MissingIn(fields, values, n) <==> f in fields[..n] && ValueOf(values, f) == ""
  {
    if n > 0 {
      MissingInHas(fields, values, n - 1, f);
      assert fields[..n] == fields[..n - 1] + [fields[n - 1]];
    }
  }

  /** The missing fields are exactly the listed fields whose value is empty. */
  lemma MissingExactly(fields: seq<Field>, values: map<Field, string>)
    ensures forall f :: f in Missing(fields, values) <==> f in fields && ValueOf(values, f) == ""
    ensures Missing(fields, values) == [] <==> forall f :: f in fields ==> ValueOf(values, f) != ""
  {
    assert fields[..|fields|] == fields;
    forall f {
      MissingInHas(fields, values, |fields|, f);
    }
    var m := Missing(fields, values);
    if m != [] {
      assert m[0] in m;
    }
  }

  /** `errors` with `Required` set on every field of `fs`. */
  function MarkRequired(errors: map<Field, FieldError>, fs: seq<Field>): map<Field, FieldError> {
    if fs == [] then errors
    else MarkRequired(errors, fs[..|fs| - 1])[fs[|fs| - 1] := Required]
  }

  /** Every marked field carries `Required`; every other entry is as it was. */
  lemma {:induction false} MarkRequiredEffect(errors: map<Field, FieldError>, fs: seq<Field>)
    ensures forall f :: f in fs ==> f in MarkRequired(errors, fs) && MarkRequired(errors, fs)[f] == Required
    ensures forall f :: f !in fs ==> (f in MarkRequired(errors, fs) <==> f in errors)
    ensures forall f :: f !in fs && f in errors ==> MarkRequired(errors, fs)[f] == errors[f]
  {
    if fs != [] {
      var init := fs[..|fs| - 1];
      MarkRequiredEffect(errors, init);
      assert fs == init + [fs[|fs| - 1]];
    }
  }

  lemma MarkRequiredSnoc(errors: map<Field, FieldError>, fs: seq<Field>, f: Field)
    ensures MarkRequired(errors, fs + [f]) == MarkRequired(errors, fs)[f := Required]
  {
    assert (fs + [f])[..|fs|] == fs;
  }

  /** The error entries of validateForm, one per failed step. */
  datatype FormError = FormInvalid | ClasseTipoInvalid | RegiaoInvalid | TemaInvalid | PdfRequired

  /** Position of each step in validateForm. */
  function Rank(e: FormError): nat {
    match e
    case FormInvalid => 0
    case ClasseTipoInvalid => 1
    case RegiaoInvalid => 2
    case TemaInvalid => 3
    case PdfRequired => 4
  }

  predicate Ascending(errs: seq<FormError>) {
    forall i, j :: 0 <= i < j < |errs| ==> Rank(errs[i]) < Rank(errs[j])
  }

  /** The entry a step pushes: `e` when it failed, nothing otherwise. */
  function Opt(failed: bool, e: FormError): seq<FormError> {
    if failed then [e] else []
  }

  /** The entries of the failed steps, in step order. */
  function ErrorList(required: bool, classeTipo: bool, regiao: bool, tema: bool, attachment: bool): seq<FormError> {
    Opt(required, FormInvalid) + Opt(classeTipo, ClasseTipoInvalid) + Opt(regiao, RegiaoInvalid)
    + Opt(tema, TemaInvalid) + Opt(attachment, PdfRequired)
  }

  lemma AscendingPush(earlier: seq<FormError>, failed: bool, e: FormError)
    requires Ascending(earlier)
    requires forall x :: x in earlier ==> Rank(x) < Rank(e)
    ensures Ascending(earlier + Opt(failed, e))
    ensures forall x :: x in earlier + Opt(failed, e) ==> Rank(x) <= Rank(e)
  {
    if failed {
      var r := earlier + [e];
      forall i, j | 0 <= i < j < |r| ensures Rank(r[i]) < Rank(r[j]) {
        if j == |r| - 1 {
          assert r[i] in earlier;
        }
      }
    }
  }

  /** Each kind of entry appears at most once, and in the order of the steps. */
  lemma ErrorListOrdered(required: bool, classeTipo: bool, regiao: bool, tema: bool, attachment: bool)
    ensures Ascending(ErrorList(required, classeTipo, regiao, tema, attachment))
  {
    var e1 := Opt(required, FormInvalid);
    AscendingPush([], required, FormInvalid);
    assert [] + e1 == e1;
    AscendingPush(e1, classeTipo, ClasseTipoInvalid);
    var e2 := e1 + Opt(classeTipo, ClasseTipoInvalid);
    AscendingPush(e2, regiao, RegiaoInvalid);
    var e3 := e2 + Opt(regiao, RegiaoInvalid);
    AscendingPush(e3, tema, TemaInvalid);
    var e4 := e3 + Opt(tema, TemaInvalid);
    AscendingPush(e4, attachment, PdfRequired);
  }

  /** An entry is present exactly when its step failed; none failed iff the list is empty. */
  lemma ErrorListEntries(required: bool, classeTipo: bool, regiao: bool, tema: bool, attachment: bool)
    ensures ErrorList(required, classeTipo, regiao, tema, attachment) == [] <==>
      !required && !classeTipo && !regiao && !tema && !attachment
    ensures FormInvalid in ErrorList(required, classeTipo, regiao, tema, attachment) <==> required
    ensures ClasseTipoInvalid in ErrorList(required, classeTipo, regiao, tema, attachment) <==> classeTipo
    ensures RegiaoInvalid in ErrorList(required, classeTipo, regiao, tema, attachment) <==> regiao
    ensures TemaInvalid in ErrorList(required, classeTipo, regiao, tema, attachment) <==> tema
    ensures PdfRequired in ErrorList(required, classeTipo, regiao, tema, attachment) <==> attachment
  {
    InErrorList(required, classeTipo, regiao, tema, attachment, FormInvalid);
    InErrorList(required, classeTipo, regiao, tema, attachment, ClasseTipoInvalid);
    InErrorList(required, classeTipo, regiao, tema, attachment, RegiaoInvalid);
    InErrorList(required, classeTipo, regiao, tema, attachment, TemaInvalid);
    InErrorList(required, classeTipo, regiao, tema, attachment, PdfRequired);
    var errs := ErrorList(required, classeTipo, regiao, tema, attachment);
    if errs != [] {
      assert errs[0] in errs;
    }
  }

  lemma InErrorList(required: bool, classeTipo: bool, regiao: bool, tema: bool, attachment: bool, x: FormError)
    ensures x in ErrorList(required, classeTipo, regiao, tema, attachment) <==>
      x in Opt(required, FormInvalid) || x in Opt(classeTipo, ClasseTipoInvalid) || x in Opt(regiao, RegiaoInvalid)
      || x in Opt(tema, TemaInvalid) || x in Opt(attachment, PdfRequired)
  {
  }

  /** A pair is checked only when both its values are present. */
  predicate PairFails(reply: Reply<seq<Row>>, p: Key, c: Key) {
    p != "" && c != "" && !IsValidPair(reply, p, c)
  }

  /**
   * The error list validateForm builds from the values, the services and the
   * number of attachments.
   */
  function FormErrors(values: map<Field, string>, svc: Services, attachmentCount: nat): (es: seq<FormError>)
    ensures |es| <= 5
    ensures FormInvalid in es <==> Missing(RequiredFields, values) != []
    ensures PdfRequired in es <==> attachmentCount == 0
  {
    var required := Missing(RequiredFields, values) != [];
    var classeTipo := PairFails(svc.classeTipo, ValueOf(values, IdClasseMapa), ValueOf(values, IdTipoMapa));
    var regiao := PairFails(svc.regionalizacaoRegiao, ValueOf(values, IdTipoRegionalizacao), ValueOf(values, IdRegiao));
    var tema := PairFails(svc.tipoTemaTema, ValueOf(values, IdTipoTema), ValueOf(values, IdTema));
    InErrorList(required, classeTipo, regiao, tema, attachmentCount == 0, FormInvalid);
    InErrorList(required, classeTipo, regiao, tema, attachmentCount == 0, PdfRequired);
    ErrorList(required, classeTipo, regiao, tema, attachmentCount == 0)
  }

  /** validateForm reports its errors in the order of its checks. */
  lemma FormErrorsOrdered(values: map<Field, string>, svc: Services, attachmentCount: nat)
    ensures forall i, j :: 0 <= i < j < |FormErrors(values, svc, attachmentCount)| ==>
      Rank(FormErrors(values, svc, attachmentCount)[i]) < Rank(FormErrors(values, svc, attachmentCount)[j])
  {
    ErrorListOrdered(
      Missing(RequiredFields, values) != [],
      PairFails(svc.classeTipo, ValueOf(values, IdClasseMapa), ValueOf(values, IdTipoMapa)),
      PairFails(svc.regionalizacaoRegiao, ValueOf(values, IdTipoRegionalizacao), ValueOf(values, IdRegiao)),
      PairFails(svc.tipoTemaTema, ValueOf(values, IdTipoTema), ValueOf(values, IdTema)),
      attachmentCount == 0);
  }

  /**
   * The form is valid exactly when every required field is filled, all three
   * pairs are valid and there is at least one attachment.
   */
  lemma FormValidIff(values: map<Field, string>, svc: Services, attachmentCount: nat)
    ensures FormErrors(values, svc, attachmentCount) == [] <==>
      && (forall f :: f in RequiredFields ==> ValueOf(values, f) != "")
      && IsValidPair(svc.classeTipo, ValueOf(values, IdClasseMapa), ValueOf(values, IdTipoMapa))
      && IsValidPair(svc.regionalizacaoRegiao, ValueOf(values, IdTipoRegionalizacao), ValueOf(values, IdRegiao))
      && IsValidPair(svc.tipoTemaTema, ValueOf(values, IdTipoTema), ValueOf(values, IdTema))
      && attachmentCount > 0
  {
    var classe, tipo := ValueOf(values, IdClasseMapa), ValueOf(values, IdTipoMapa);
    var tipoReg, regiao := ValueOf(values, IdTipoRegionalizacao), ValueOf(values, IdRegiao);
    var tipoTema, tema := ValueOf(values, IdTipoTema), ValueOf(values, IdTema);
    var b1 := Missing(RequiredFields, values) != [];
    var b2 := PairFails(svc.classeTipo, classe, tipo);
    var b3 := PairFails(svc.regionalizacaoRegiao, tipoReg, regiao);
    var b4 := PairFails(svc.tipoTemaTema, tipoTema, tema);
    assert FormErrors(values, svc, attachmentCount) == ErrorList(b1, b2, b3, b4, attachmentCount == 0);
    ErrorListEntries(b1, b2, b3, b4, attachmentCount == 0);
    MissingExactly(RequiredFields, values);
    if !b1 {
      RequiredCoversPairs(values);
    }
  }

  /** Every field of the three pairs is a required field. */
  lemma RequiredCoversPairs(values: map<Field, string>)
    requires forall f :: f in RequiredFields ==> ValueOf(values, f) != ""
    ensures ValueOf(values, IdClasseMapa) != "" && ValueOf(values, IdTipoMapa) != ""
    ensures ValueOf(values, IdTipoRegionalizacao) != "" && ValueOf(values, IdRegiao) != ""
    ensures ValueOf(values, IdTipoTema) != "" && ValueOf(values, IdTema) != ""
  {
    assert RequiredFields[0] == IdClasseMapa && RequiredFields[1] == IdTipoMapa;
    assert RequiredFields[6] == IdTipoRegionalizacao && RequiredFields[3] == IdRegiao;
    assert RequiredFields[8] == IdTipoTema && RequiredFields[7] == IdTema;
  }

  /** An entry for a pair appears only when both of its values are present. */
  lemma PairEntriesNeedBothValues(values: map<Field, string>, svc: Services, attachmentCount: nat)
    ensures ClasseTipoInvalid in FormErrors(values, svc, attachmentCount) ==>
      ValueOf(values, IdClasseMapa) != "" && ValueOf(values, IdTipoMapa) != ""
    ensures RegiaoInvalid in FormErrors(values, svc, attachmentCount) ==>
      ValueOf(values, IdTipoRegionalizacao) != "" && ValueOf(values, IdRegiao) != ""
    ensures TemaInvalid in FormErrors(values, svc, attachmentCount) ==>
      ValueOf(values, IdTipoTema) != "" && ValueOf(values, IdTema) != ""
  {
    ErrorListEntries(
      Missing(RequiredFields, values) != [],
      PairFails(svc.classeTipo, ValueOf(values, IdClasseMapa), ValueOf(values, IdTipoMapa)),
      PairFails(svc.regionalizacaoRegiao, ValueOf(values, IdTipoRegionalizacao), ValueOf(values, IdRegiao)),
      PairFails(svc.tipoTemaTema, ValueOf(values, IdTipoTema), ValueOf(values, IdTema)),
      attachmentCount == 0);
  }

}
