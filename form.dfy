/**
 * The form widget the handlers of src/frontend/scripts/validation.js mutate:
 * four maps updated in place by the widget's primitive operations. Each
 * handler is a method that performs the source's calls in the source's order
 * and ends in the state the Cascade transition of the same name gives.
 */
module Form {
  import opened Oracle
  import opened Cascade

  class FormWidget {
    var values: map<Field, string>
    var errors: map<Field, FieldError>
    var options: map<Field, seq<Choice>>
    var enabled: map<Field, bool>

    function State(): FormState
      reads this
    {
      FormState(values, errors, options, enabled)
    }

    constructor (initial: FormState)
      ensures State() == initial
    {
      values, errors, options, enabled := initial.values, initial.errors, initial.options, initial.enabled;
    }

    // Primitive operations of the widget.

    method SetError(f: Field, e: FieldError)
      modifies this
      ensures State() == old(State()).(errors := old(errors)[f := e])
    {
      errors := errors[f := e];
    }

    method ClearError(f: Field)
      modifies this
      ensures State() == old(State()).(errors := old(errors) - {f})
    {
      errors := errors - {f};
    }

    method ClearValue(f: Field)
      modifies this
      ensures State() == old(State()).(values := old(values) - {f})
    {
      values := values - {f};
    }

    method SetFieldOptions(f: Field, opts: seq<Choice>)
      modifies this
      ensures State() == old(State()).(options := old(options)[f := opts])
    {
      options := options[f := opts];
    }

    method EnableField(f: Field)
      modifies this
      ensures State() == old(State()).(enabled := old(enabled)[f := true])
    {
      enabled := enabled[f := true];
    }

    method DisableField(f: Field)
      modifies this
      ensures State() == old(State()).(enabled := old(enabled)[f := false])
    {
      enabled := enabled[f := false];
    }

    // Handlers.

    /** onClasseMapaChange: `reply` is what t_classe_mapa_tipo_mapa answers. */
    method OnClasseMapaChange(value: Key, reply: Reply<seq<Row>>)
      modifies this
      ensures State() == Cascade.OnClasseMapaChange(old(State()), value, reply)
    {
      var tipo := ValueOf(values, IdTipoMapa);
      if tipo != "" {
        var isValid := IsValidPair(reply, value, tipo);
        if !isValid {
          SetError(IdTipoMapa, InvalidClasseTipo);
          ClearValue(IdTipoMapa);
        } else {
          ClearError(IdTipoMapa);
        }
      }
    }

    /** onTipoMapaChange: `reply` is what t_classe_mapa_tipo_mapa answers. */
    method OnTipoMapaChange(value: Key, reply: Reply<seq<Row>>)
      modifies this
      ensures State() == Cascade.OnTipoMapaChange(old(State()), value, reply)
    {
      var classe := ValueOf(values, IdClasseMapa);
      if classe == "" {
        SetError(IdTipoMapa, SelectClasseFirst);
        ClearValue(IdTipoMapa);
        return;
      }
      var isValid := IsValidPair(reply, classe, value);
      if !isValid {
        SetError(IdTipoMapa, InvalidClasseTipo);
        ClearValue(IdTipoMapa);
      } else {
        ClearError(IdTipoMapa);
      }
    }

    /** loadRegioesValidas: `reply` is what t_regionalizacao_regiao answers. */
    method LoadRegioesValidas(parent: Key, reply: Reply<seq<Row>>)
      modifies this
      ensures State() == LoadRegioes(old(State()), parent, reply)
    {
      if parent == "" {
        SetFieldOptions(IdRegiao, []);
        DisableField(IdRegiao);
        return;
      }
      match reply
      case Err =>
        SetError(IdTipoRegionalizacao, ErrorLoadingRegioes);
        DisableField(IdRegiao);
      case Ok(t) =>
        var rows := RowsFor(t, parent);
        if |rows| == 0 {
          SetError(IdTipoRegionalizacao, NoRegioesFound);
          SetFieldOptions(IdRegiao, []);
          DisableField(IdRegiao);
          return;
        }
        var opts := RegiaoChoices(rows);
        SetFieldOptions(IdRegiao, opts);
        EnableField(IdRegiao);
        ClearValue(IdRegiao);
        ClearError(IdTipoRegionalizacao);
    }

    /**
     * loadTemasValidos: `rel` is what t_tipo_tema_tema answers, `temas` what
     * t_tema answers to the second query.
     */
    method LoadTemasValidos(parent: Key, rel: Reply<seq<Row>>, temas: Reply<seq<Tema>>)
      modifies this
      ensures State() == LoadTemas(old(State()), parent, rel, temas)
    {
      if parent == "" {
        SetFieldOptions(IdTema, []);
        DisableField(IdTema);
        return;
      }
      if rel.Err? {
        SetError(IdTipoTema, ErrorLoadingTemas);
        DisableField(IdTema);
        return;
      }
      var rows := RowsFor(rel.value, parent);
      if |rows| == 0 {
        SetError(IdTipoTema, NoTemasFound);
        SetFieldOptions(IdTema, []);
        DisableField(IdTema);
        return;
      }
      var ids := ChildIds(rows);
      if temas.Err? {
        SetError(IdTipoTema, ErrorLoadingTemas);
        DisableField(IdTema);
        return;
      }
      var opts := TemaChoices(TemasIn(temas.value, ids));
      SetFieldOptions(IdTema, opts);
      EnableField(IdTema);
      ClearValue(IdTema);
      ClearError(IdTipoTema);
    }

    /** onTipoRegionalizacaoChange: reloads the regions for the chosen type. */
    method OnTipoRegionalizacaoChange(value: Key, reply: Reply<seq<Row>>)
      modifies this
      ensures State() == LoadRegioes(old(State()), value, reply)
    {
      LoadRegioesValidas(value, reply);
    }

    /** onTipoTemaChange: reloads the temas for the chosen tipo de tema. */
    method OnTipoTemaChange(value: Key, rel: Reply<seq<Row>>, temas: Reply<seq<Tema>>)
      modifies this
      ensures State() == LoadTemas(old(State()), value, rel, temas)
    {
      LoadTemasValidos(value, rel, temas);
    }

    /**
     * The loop of validateRequiredFields over a list of fields: each falsy
     * field is collected and marked `Required`, in list order.
     */
    method MarkMissing(fields: seq<Field>) returns (missing: seq<Field>)
      modifies this
      ensures missing == Missing(fields, old(values))
      ensures State() == old(State()).(errors := MarkRequired(old(errors), missing))
    {
      missing := [];
      var i := 0;
      while i < |fields|
        invariant 0 <= i <= |fields|
        invariant State() == old(State()).(errors := MarkRequired(old(errors), missing))
        invariant missing == MissingIn(fields, values, i)
      {
        var campo := fields[i];
        if ValueOf(values, campo) == "" {
          MarkRequiredSnoc(old(errors), missing, campo);
          missing := missing + [campo];
          SetError(campo, Required);
        }
        i := i + 1;
      }
    }

    /**
     * validateRequiredFields: walks REQUIRED_FIELDS in order, collecting the
     * falsy ones and setting `Required` on each; true iff none was missing.
     */
    method ValidateRequiredFields() returns (ok: bool)
      modifies this
      ensures ok <==> Missing(RequiredFields, old(values)) == []
      ensures State() == old(State()).(errors := MarkRequired(old(errors), Missing(RequiredFields, old(values))))
    {
      var missing := MarkMissing(RequiredFields);
      ok := |missing| == 0;
    }

    /**
     * validateForm: the required-field check (which marks the missing fields),
     * then each pair whose two values are present, then the attachments.
     */
    method ValidateForm(svc: Services, attachmentCount: nat) returns (valid: bool, errs: seq<FormError>)
      modifies this
      ensures errs == FormErrors(old(values), svc, attachmentCount)
      ensures valid <==> errs == []
      ensures State() == old(State()).(errors := MarkRequired(old(errors), Missing(RequiredFields, old(values))))
    {
      errs := [];
      var requiredOk := ValidateRequiredFields();
      if !requiredOk {
        errs := errs + [FormInvalid];
      }
      assert errs == Opt(!requiredOk, FormInvalid);

      errs := CheckPair(errs, svc.classeTipo, ValueOf(values, IdClasseMapa), ValueOf(values, IdTipoMapa), ClasseTipoInvalid);
      errs := CheckPair(errs, svc.regionalizacaoRegiao, ValueOf(values, IdTipoRegionalizacao), ValueOf(values, IdRegiao), RegiaoInvalid);
      errs := CheckPair(errs, svc.tipoTemaTema, ValueOf(values, IdTipoTema), ValueOf(values, IdTema), TemaInvalid);

      ghost var before := errs;
      if attachmentCount == 0 {
        errs := errs + [PdfRequired];
      }
      assert errs == before + Opt(attachmentCount == 0, PdfRequired);
      valid := |errs| == 0;
    }
  }

  /**
   * One pair step of validateForm: when both values are present the pair is
   * validated, and an invalid pair pushes `e`.
   */
  method CheckPair(errs: seq<FormError>, reply: Reply<seq<Row>>, parent: Key, child: Key, e: FormError)
    returns (errs': seq<FormError>)
    ensures errs' == errs + Opt(PairFails(reply, parent, child), e)
  {
    errs' := errs;
    if parent != "" && child != "" {
      var isValid := IsValidPair(reply, parent, child);
      if !isValid {
        errs' := errs' + [e];
      }
    }
  }

}
