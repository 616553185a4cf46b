/**
 `BroadcastableMixin` and `BroadcastableModelMixin`: how a model instance
 names its template and DOM target, assembles the template context, maps a
 lifecycle event to a stream action, fans a broadcast out to itself and its
 configured related targets, and orders those sends around its own save and
 delete.
 */
module Mixins {
  import opened Text
  import opened Turbo

  /** The parts of `self._meta` the mixins read; `modelLabel` is "app_label.ModelName". */
  datatype Meta = Meta(modelLabel: string, verboseName: string, verboseNamePlural: string)

  /** The class-level settings of a concrete model: `broadcasts_to`,
      `broadcast_self`, `inserts_by` and `turbo_streams_template` (None unless
      the model overrides it). */
  datatype Config = Config(
    broadcastsTo: seq<string>,
    broadcastSelf: bool,
    insertsBy: StreamAction,
    templateOverride: Option<string>)

  /** The broadcasting instance: its metadata and settings, `str(self.pk)`,
      `self._state.adding`, itself as a broadcast target, and the attributes
      visible to `hasattr`/`getattr` (a name outside `attrs` has none). */
  datatype Record = Record(
    meta: Meta,
    config: Config,
    pk: string,
    adding: bool,
    selfRef: ObjRef,
    attrs: map<string, Target>)

  /** The label unpacks into exactly two names. */
  predicate LabelOk(meta: Meta) {
    Count(meta.modelLabel, '.') == 1
  }

  /** `app_name, model_name = label.lower().split(".")`, which raises
      ValueError unless the split gives exactly two pieces. */
  function LabelParts(dotted: string): (r: Result<(string, string)>)
    ensures r.Ok? <==> Count(dotted, '.') == 1
    ensures r.Err? ==> r.error == ValueError
    ensures r.Ok? ==> r.value.0 + "." + r.value.1 == Lower(dotted)
    ensures r.Ok? ==> '.' !in r.value.0 && '.' !in r.value.1
  {
    CountDotsLower(dotted);
    var parts := Split(Lower(dotted), '.');
    if |parts| == 2 then
      assert parts[1..] == [parts[1]];
      assert Join(parts, '.') == parts[0] + "." + parts[1];
      Ok((parts[0], parts[1]))
    else Err(ValueError)
  }

  /** A label made of two dot-free names unpacks into those names,
      lower-cased. */
  lemma LabelPartsOf(app: string, model: string)
    requires '.' !in app && '.' !in model
    ensures LabelParts(app + "." + model) == Ok((Lower(app), Lower(model)))
  {
    var parts := [app, model];
    assert Join(parts, '.') == app + "." + model;
    SplitJoin(parts, '.');
    SplitLower(app + "." + model);
  }

  /** The lower-cased model name, the second half of the label. */
  function ModelName(meta: Meta): string
    requires LabelOk(meta)
  {
    LabelParts(meta.modelLabel).value.1
  }

  /** `get_turbo_streams_template`: the override when there is one, else
      "app/model.html" built from the lower-cased label. */
  function GetTurboStreamsTemplate(meta: Meta, config: Config): (r: Result<string>)
    ensures config.templateOverride.Some? ==> r == Ok(config.templateOverride.value)
    ensures config.templateOverride.None? ==> (r.Ok? <==> LabelOk(meta))
    ensures r.Err? ==> r.error == ValueError
  {
    match config.templateOverride
    case Some(t) => Ok(t)
    case None =>
      var names :- LabelParts(meta.modelLabel);
      Ok(names.0 + "/" + names.1 + ".html")
  }

  /** Without an override, the template name is the original label's two
      names, each lower-cased, as "app/model.html". */
  lemma TemplateFromLabel(meta: Meta, config: Config, app: string, model: string)
    requires config.templateOverride.None?
    requires Split(meta.modelLabel, '.') == [app, model]
    ensures GetTurboStreamsTemplate(meta, config) == Ok(Lower(app) + "/" + Lower(model) + ".html")
  {
    SplitLower(meta.modelLabel);
    assert Split(Lower(meta.modelLabel), '.') == [Lower(app), Lower(model)];
  }

  /** The model mixin's `append_context`: the instance under "object" and
      under its lower-cased model name. */
  function AppendContext(meta: Meta): (r: Result<Context>)
    ensures r.Ok? <==> LabelOk(meta)
    ensures r.Err? ==> r.error == ValueError
    ensures r.Ok? ==> r.value.Keys == {"object", ModelName(meta)}
    ensures r.Ok? ==> forall k :: k in r.value ==> r.value[k] == SelfObject
  {
    var names :- LabelParts(meta.modelLabel);
    Ok(map["object" := SelfObject, names.1 := SelfObject])
  }

  /** `_get_context`: a context holding "model_template", then updated with
      the extra entries, which win on a shared key. */
  function GetContext(template: string, extra: Context): (r: Context)
    ensures r.Keys == {"model_template"} + extra.Keys
    ensures forall k :: k in extra ==> r[k] == extra[k]
    ensures "model_template" !in extra ==> r["model_template"] == TemplateName(template)
  {
    map["model_template" := TemplateName(template)] + extra
  }

  /** The base mixin's `append_context` adds nothing: its context is the
      template entry alone. */
  lemma BaseContext(template: string)
    ensures GetContext(template, map[]) == map["model_template" := TemplateName(template)]
  {
  }

  /** `_get_context` of the model mixin, which raises when the template or
      `append_context` does. */
  function ModelContext(meta: Meta, config: Config): (r: Result<Context>)
    ensures r.Ok? <==> LabelOk(meta)
    ensures r.Err? ==> r.error == ValueError
    ensures r.Ok? ==> r.value.Keys == {"model_template", "object", ModelName(meta)}
    ensures r.Ok? ==> r.value["object"] == SelfObject && r.value[ModelName(meta)] == SelfObject
    ensures r.Ok? && ModelName(meta) != "model_template" ==>
              r.value["model_template"] == TemplateName(GetTurboStreamsTemplate(meta, config).value)
    ensures r.Ok? && ModelName(meta) == "model_template" ==> r.value["model_template"] == SelfObject
  {
    var template :- GetTurboStreamsTemplate(meta, config);
    var extra :- AppendContext(meta);
    Ok(GetContext(template, extra))
  }

  /** `get_action`: CREATED inserts by the model's setting, DELETED removes,
      UPDATED and every other event replace. */
  function GetAction(config: Config, event: ModelAction): (r: StreamAction)
    ensures r in {config.insertsBy, Replace, Remove}
    ensures event == Created ==> r == config.insertsBy
    ensures event == Deleted ==> r == Remove
    ensures event != Created && event != Deleted ==> r == Replace
  {
    match event
    case Created => config.insertsBy
    case Updated => Replace
    case Deleted => Remove
    case OtherAction(_) => Replace
  }

  /** When the model inserts by appending or prepending, the action tells
      the event class apart: insert exactly for CREATED, remove exactly for
      DELETED, replace exactly for the rest. */
  lemma ActionDeterminesEvent(config: Config, event: ModelAction)
    requires config.insertsBy in {Append, Prepend}
    ensures GetAction(config, event) == config.insertsBy <==> event == Created
    ensures GetAction(config, event) == Remove <==> event == Deleted
    ensures GetAction(config, event) == Replace <==> event != Created && event != Deleted
  {
  }

  /** `get_dom_target`: a string target lower-cased; a model target named
      from the broadcasting instance's own metadata, by its plural label when
      its class does not compare equal to the target, else by its singular
      label and primary key; anything else has no `lower`. */
  function GetDomTarget(meta: Meta, pk: string, target: Target): (r: Result<string>)
    ensures r.Err? <==> target.OtherValue?
    ensures r.Err? ==> r.error == AttributeError
    ensures target.Channel? ==> r == Ok(Lower(target.name))
    ensures target.Instance? && !target.obj.sameModel ==> r == Ok(Lower(meta.verboseNamePlural))
    ensures target.Instance? && target.obj.sameModel ==> r == Ok(Lower(meta.verboseName) + "_" + pk)
  {
    match target
    case Instance(obj) =>
      if !obj.sameModel then Ok(Lower(meta.verboseNamePlural))
      else Ok(Lower(meta.verboseName) + "_" + pk)
    case Channel(name) => Ok(Lower(name))
    case OtherValue => Err(AttributeError)
  }

  /** The DOM target of a model target never reads the target: two model
      targets that compare alike get the same name. */
  lemma DomTargetIgnoresTarget(meta: Meta, pk: string, a: ObjRef, b: ObjRef)
    requires a.sameModel == b.sameModel
    ensures GetDomTarget(meta, pk, Instance(a)) == GetDomTarget(meta, pk, Instance(b))
  {
  }

  /** A channel's DOM target is already a channel name in normal form:
      naming it again gives it back. */
  lemma ChannelDomTargetStable(meta: Meta, pk: string, name: string)
    ensures GetDomTarget(meta, pk, Channel(GetDomTarget(meta, pk, Channel(name)).value))
         == GetDomTarget(meta, pk, Channel(name))
  {
    LowerIdempotent(name);
  }

  /** The single-record DOM target splits back into the lower-cased verbose
      name, an underscore, and the primary key exactly as rendered. */
  lemma RecordDomTargetParts(meta: Meta, pk: string, obj: ObjRef)
    requires obj.sameModel
    ensures var d := GetDomTarget(meta, pk, Instance(obj)).value;
            var n := |meta.verboseName|;
            |d| == n + 1 + |pk| && d[..n] == Lower(meta.verboseName) && d[n] == '_' && d[n + 1..] == pk
  {
  }

  /** The template name and the context `send_broadcast` computes, in
      that order, after the DOM target; they do not depend on the target. */
  function Payload(meta: Meta, config: Config): (r: Result<(string, Context)>)
    ensures r.Ok? <==> LabelOk(meta)
    ensures r.Err? ==> r.error == ValueError
  {
    var template :- GetTurboStreamsTemplate(meta, config);
    var context :- ModelContext(meta, config);
    Ok((template, context))
  }

  /** `send_broadcast(target, action)`: one call of the transport, whose
      arguments are computed in order, so a target without `lower` fails
      first and a bad label fails next. */
  function SendBroadcast(rec: Record, target: Target, action: StreamAction): (r: Result<Event>)
    ensures r.Ok? <==> !target.OtherValue? && LabelOk(rec.meta)
    ensures r.Err? ==> r.error == (if target.OtherValue? then AttributeError else ValueError)
    ensures r.Ok? ==> r.value.Send? && r.value.target == target && r.value.action == action
  {
    var domTarget :- GetDomTarget(rec.meta, rec.pk, target);
    var payload :- Payload(rec.meta, rec.config);
    Ok(Send(target, domTarget, action, payload.0, payload.1))
  }

  /** A send carries the DOM target of its own target, and the template and
      context of the broadcasting instance, whatever the target. */
  lemma SendArguments(rec: Record, target: Target, action: StreamAction)
    requires SendBroadcast(rec, target, action).Ok?
    ensures var e := SendBroadcast(rec, target, action).value;
            && e.domTarget == GetDomTarget(rec.meta, rec.pk, target).value
            && e.template == GetTurboStreamsTemplate(rec.meta, rec.config).value
            && e.context == ModelContext(rec.meta, rec.config).value
  {
  }

  /** The target a `broadcasts_to` entry names: the attribute's value when
      there is one, else the entry itself as a channel name. */
  function Resolve(attrs: map<string, Target>, name: string): Target {
    if name in attrs then attrs[name] else Channel(name)
  }

  /** The `broadcasts_to` entries resolved one by one, in order. */
  function ResolveAll(attrs: map<string, Target>, names: seq<string>): (r: seq<Target>)
    ensures |r| == |names|
    ensures forall i {:trigger r[i]} :: 0 <= i < |names| ==> r[i] == Resolve(attrs, names[i])
  {
    seq(|names|, i requires 0 <= i < |names| => Resolve(attrs, names[i]))
  }

  /** Every target one broadcast addresses: the instance itself first when
      `broadcast_self` holds, then each `broadcasts_to` entry. */
  function Targets(rec: Record): (r: seq<Target>)
    ensures |r| == (if rec.config.broadcastSelf then 1 else 0) + |rec.config.broadcastsTo|
    ensures rec.config.broadcastSelf ==> r[0] == Instance(rec.selfRef)
  {
    (if rec.config.broadcastSelf then [Instance(rec.selfRef)] else [])
      + ResolveAll(rec.attrs, rec.config.broadcastsTo)
  }

  /** The `k`th `broadcasts_to` entry is resolved into the target right
      after those of the entries before it. */
  lemma TargetAt(rec: Record, k: nat)
    requires k < |rec.config.broadcastsTo|
    ensures var off := if rec.config.broadcastSelf then 1 else 0;
            Targets(rec)[off + k] == Resolve(rec.attrs, rec.config.broadcastsTo[k])
  {
  }

  /** Sends to each target in order until one raises: the trace holds the
      sends made, each to its own target with the given action, and the
      error is that of the first send that failed. */
  function SendAll(rec: Record, targets: seq<Target>, action: StreamAction): (r: Run)
    ensures |r.trace| <= |targets|
    ensures forall i {:trigger r.trace[i]} :: 0 <= i < |r.trace| ==>
              r.trace[i].Send? && r.trace[i].target == targets[i] && r.trace[i].action == action
    ensures r.error.None? <==> |r.trace| == |targets|
    decreases |targets|
  {
    if |targets| == 0 then Run([], None)
    else
      match SendBroadcast(rec, targets[0], action)
      case Err(e) => Run([], Some(e))
      case Ok(event) =>
        var rest := SendAll(rec, targets[1..], action);
        Run([event] + rest.trace, rest.error)
  }

  /** Every send made is exactly what `send_broadcast` produces for its
      target. */
  lemma {:induction false} SendAllMade(rec: Record, targets: seq<Target>, action: StreamAction, k: nat)
    requires k < |SendAll(rec, targets, action).trace|
    ensures SendBroadcast(rec, targets[k], action) == Ok(SendAll(rec, targets, action).trace[k])
    decreases |targets|
  {
    if k > 0 {
      SendAllMade(rec, targets[1..], action, k - 1);
    }
  }

  /** The error a run ends with is that of the first target left unsent. */
  lemma {:induction false} SendAllFailed(rec: Record, targets: seq<Target>, action: StreamAction)
    requires SendAll(rec, targets, action).error.Some?
    ensures var r := SendAll(rec, targets, action);
            SendBroadcast(rec, targets[|r.trace|], action) == Err(r.error.value)
    decreases |targets|
  {
    if SendBroadcast(rec, targets[0], action).Ok? {
      SendAllFailed(rec, targets[1..], action);
    }
  }

  /** `broadcast(model_action)`: every target gets the same action, and the
      first send that raises ends the call. */
  function Broadcast(rec: Record, event: ModelAction): (r: Run)
    ensures AllSends(r.trace)
    ensures forall i :: 0 <= i < |r.trace| ==> r.trace[i].action == GetAction(rec.config, event)
    ensures |r.trace| <= |Targets(rec)|
    ensures forall i {:trigger r.trace[i]} :: 0 <= i < |r.trace| ==> r.trace[i].target == Targets(rec)[i]
    ensures r.error.None? <==> |r.trace| == |Targets(rec)|
  {
    SendAll(rec, Targets(rec), GetAction(rec.config, event))
  }

  /** A broadcast completes exactly when it has nothing to send, or the
      label is well formed and every target is a model or a string. */
  lemma BroadcastSucceedsIff(rec: Record, event: ModelAction)
    ensures Broadcast(rec, event).error.None? <==>
              |Targets(rec)| == 0
              || (LabelOk(rec.meta) && forall i :: 0 <= i < |Targets(rec)| ==> !Targets(rec)[i].OtherValue?)
  {
    var ts := Targets(rec);
    var action := GetAction(rec.config, event);
    var r := SendAll(rec, ts, action);
    if r.error.Some? {
      SendAllFailed(rec, ts, action);
    } else if |ts| > 0 {
      SendAllMade(rec, ts, action, 0);
      forall i | 0 <= i < |ts|
        ensures !ts[i].OtherValue?
      {
        SendAllMade(rec, ts, action, i);
      }
    }
  }

  /** A malformed label stops the very first send, so nothing goes out. */
  lemma BadLabelSendsNothing(rec: Record, event: ModelAction)
    requires !LabelOk(rec.meta)
    ensures Broadcast(rec, event).trace == []
    ensures Broadcast(rec, event).error.Some? <==> |Targets(rec)| > 0
  {
    var ts := Targets(rec);
    assert |ts| > 0 ==> SendBroadcast(rec, ts[0], GetAction(rec.config, event)).Err?;
  }

  /** A completed broadcast sends once per target: to itself when enabled
      and once per `broadcasts_to` entry. Repeated entries are not merged. */
  lemma BroadcastCount(rec: Record, event: ModelAction)
    requires Broadcast(rec, event).error.None?
    ensures |Broadcast(rec, event).trace| == (if rec.config.broadcastSelf then 1 else 0) + |rec.config.broadcastsTo|
  {
  }

  /** The self-send, when enabled, comes first. */
  lemma BroadcastSelfFirst(rec: Record, event: ModelAction)
    requires rec.config.broadcastSelf && |Broadcast(rec, event).trace| > 0
    ensures Broadcast(rec, event).trace[0].target == Instance(rec.selfRef)
  {
  }

  /** In a completed broadcast, every `broadcasts_to` entry has a place in
      the trace, after the self-send when there is one. */
  lemma EntryInRange(rec: Record, event: ModelAction, k: nat)
    requires Broadcast(rec, event).error.None?
    requires k < |rec.config.broadcastsTo|
    ensures (if rec.config.broadcastSelf then 1 else 0) + k < |Broadcast(rec, event).trace|
  {
  }

  /** The send for the `k`th `broadcasts_to` entry follows those of the
      entries before it, and is exactly what `send_broadcast` makes of the
      attribute's value or, when there is no such attribute, of the entry's
      name. */
  lemma BroadcastEntrySend(rec: Record, event: ModelAction, k: nat)
    requires Broadcast(rec, event).error.None?
    requires k < |rec.config.broadcastsTo|
    ensures var off := if rec.config.broadcastSelf then 1 else 0;
            Ok(Broadcast(rec, event).trace[off + k])
            == SendBroadcast(rec, Resolve(rec.attrs, rec.config.broadcastsTo[k]), GetAction(rec.config, event))
  {
    var off := if rec.config.broadcastSelf then 1 else 0;
    var ts := Targets(rec);
    var action := GetAction(rec.config, event);
    var made := SendAll(rec, ts, action).trace;
    assert off + k < |made| by {
      EntryInRange(rec, event, k);
    }
    assert Ok(made[off + k]) == SendBroadcast(rec, ts[off + k], action) by {
      SendAllMade(rec, ts, action, off + k);
    }
    assert ts[off + k] == Resolve(rec.attrs, rec.config.broadcastsTo[k]) by {
      TargetAt(rec, k);
    }
  }

  /** No deduplication: two `broadcasts_to` entries that name the same
      target, whether the same field listed twice or two fields holding the
      same object, each get their own, identical send. */
  lemma NoDeduplication(rec: Record, event: ModelAction, i: nat, j: nat)
    requires Broadcast(rec, event).error.None?
    requires i < j < |rec.config.broadcastsTo|
    requires Resolve(rec.attrs, rec.config.broadcastsTo[i]) == Resolve(rec.attrs, rec.config.broadcastsTo[j])
    ensures var off := if rec.config.broadcastSelf then 1 else 0;
            Broadcast(rec, event).trace[off + i] == Broadcast(rec, event).trace[off + j]
  {
    BroadcastEntrySend(rec, event, i);
    BroadcastEntrySend(rec, event, j);
  }

  /** The run `run` preceded by the sends already in `trace`. */
  function After(trace: seq<Event>, run: Run): Run {
    Run(trace + run.trace, run.error)
  }

  /** A send that succeeds extends the trace, and the rest of the run
      follows it. */
  lemma SendAllSent(rec: Record, action: StreamAction, trace: seq<Event>, pending: seq<Target>)
    requires |pending| > 0 && SendBroadcast(rec, pending[0], action).Ok?
    ensures After(trace, SendAll(rec, pending, action))
         == After(trace + [SendBroadcast(rec, pending[0], action).value], SendAll(rec, pending[1..], action))
  {
    var e := SendBroadcast(rec, pending[0], action).value;
    var rest := SendAll(rec, pending[1..], action);
    assert SendAll(rec, pending, action) == Run([e] + rest.trace, rest.error);
    assert trace + ([e] + rest.trace) == trace + [e] + rest.trace;
  }

  /** A send that raises ends the run with its error, adding nothing. */
  lemma SendAllRaised(rec: Record, action: StreamAction, trace: seq<Event>, pending: seq<Target>)
    requires |pending| > 0 && SendBroadcast(rec, pending[0], action).Err?
    ensures After(trace, SendAll(rec, pending, action)) == Run(trace, Some(SendBroadcast(rec, pending[0], action).error))
  {
    assert SendAll(rec, pending, action) == Run([], Some(SendBroadcast(rec, pending[0], action).error));
    assert trace + [] == trace;
  }

  /** Sending to the first pending target either extends the trace by
      that send or ends the run with its error. */
  lemma SendAllStep(rec: Record, action: StreamAction, trace: seq<Event>, pending: seq<Target>)
    requires |pending| > 0
    ensures var sent := SendBroadcast(rec, pending[0], action);
            After(trace, SendAll(rec, pending, action))
            == if sent.Err? then Run(trace, Some(sent.error))
               else After(trace + [sent.value], SendAll(rec, pending[1..], action))
  {
    if SendBroadcast(rec, pending[0], action).Ok? {
      SendAllSent(rec, action, trace, pending);
    } else {
      SendAllRaised(rec, action, trace, pending);
    }
  }

  /** The loop's step: the `i`th entry's send extends the trace or ends the
      run with its error. */
  lemma EntryStep(rec: Record, action: StreamAction, trace: seq<Event>, names: seq<string>, i: nat)
    requires i < |names|
    ensures var sent := SendBroadcast(rec, Resolve(rec.attrs, names[i]), action);
            After(trace, SendAll(rec, ResolveAll(rec.attrs, names[i..]), action))
            == if sent.Err? then Run(trace, Some(sent.error))
               else After(trace + [sent.value], SendAll(rec, ResolveAll(rec.attrs, names[i + 1..]), action))
  {
    var pending := ResolveAll(rec.attrs, names[i..]);
    assert pending[1..] == ResolveAll(rec.attrs, names[i + 1..]);
    SendAllStep(rec, action, trace, pending);
  }

  /** Without the self-send, a broadcast is the run over the entries. */
  lemma EntriesOnly(rec: Record, event: ModelAction)
    requires !rec.config.broadcastSelf
    ensures Broadcast(rec, event)
         == After([], SendAll(rec, ResolveAll(rec.attrs, rec.config.broadcastsTo), GetAction(rec.config, event)))
  {
    var all := Broadcast(rec, event);
    assert [] + all.trace == all.trace;
    assert Targets(rec) == ResolveAll(rec.attrs, rec.config.broadcastsTo);
  }

  /** With the self-send, a broadcast sends to the instance first. */
  lemma SelfThenEntries(rec: Record, event: ModelAction)
    requires rec.config.broadcastSelf
    ensures var action := GetAction(rec.config, event);
            var sent := SendBroadcast(rec, Instance(rec.selfRef), action);
            Broadcast(rec, event)
            == if sent.Err? then Run([], Some(sent.error))
               else After([sent.value], SendAll(rec, ResolveAll(rec.attrs, rec.config.broadcastsTo), action))
  {
    var action := GetAction(rec.config, event);
    var all := Broadcast(rec, event);
    assert [] + all.trace == all.trace;
    SendAllStep(rec, action, [], Targets(rec));
    assert Targets(rec)[1..] == ResolveAll(rec.attrs, rec.config.broadcastsTo);
  }

  /** The self-send, when enabled, either ends the broadcast with its error
      or is followed by the sends for the `broadcasts_to` entries. */
  lemma SelfStep(rec: Record, event: ModelAction)
    ensures var action := GetAction(rec.config, event);
            var entries := SendAll(rec, ResolveAll(rec.attrs, rec.config.broadcastsTo), action);
            var sent := SendBroadcast(rec, Instance(rec.selfRef), action);
            Broadcast(rec, event)
            == if !rec.config.broadcastSelf then After([], entries)
               else if sent.Err? then Run([], Some(sent.error))
               else After([sent.value], entries)
  {
    if rec.config.broadcastSelf {
      SelfThenEntries(rec, event);
    } else {
      EntriesOnly(rec, event);
    }
  }

  /** `broadcast` as the source writes it: the self-send, then a loop over
      `broadcasts_to` resolving each entry; an exception ends the call. */
  method BroadcastLoop(rec: Record, event: ModelAction) returns (trace: seq<Event>, error: Option<PyError>)
    ensures Run(trace, error) == Broadcast(rec, event)
  {
    var action := GetAction(rec.config, event);
    var names := rec.config.broadcastsTo;
    ghost var goal := Broadcast(rec, event);
    SelfStep(rec, event);
    trace := [];
    if rec.config.broadcastSelf {
      var sent := SendBroadcast(rec, Instance(rec.selfRef), action);
      if sent.Err? {
        return [], Some(sent.error);
      }
      trace := [sent.value];
    }
    assert names[0..] == names;
    var i := 0;
    while i < |names|
      invariant i <= |names|
      invariant goal == After(trace, SendAll(rec, ResolveAll(rec.attrs, names[i..]), action))
    {
      var name := names[i];
      var target := if name in rec.attrs then rec.attrs[name] else Channel(name);
      var sent := SendBroadcast(rec, target, action);
      EntryStep(rec, action, trace, names, i);
      if sent.Err? {
        return trace, Some(sent.error);
      }
      trace := trace + [sent.value];
      i := i + 1;
    }
    error := None;
  }

  /** What the ORM's own `save` did: stored the row, leaving the given
      primary key, or raised. */
  datatype SaveOutcome = Saved(pk: string) | SaveFailed

  /** The instance after a successful save: it has its primary key and is
      no longer being added. */
  function AfterSave(rec: Record, pk: string): Record {
    rec.(pk := pk, adding := false)
  }

  /** The event `save` broadcasts, read from the state before saving. */
  function SaveEvent(rec: Record): ModelAction {
    if rec.adding then Created else Updated
  }

  /** `save`: persist first; only when that returns, broadcast CREATED if the
      instance was being added before the call and UPDATED otherwise. */
  function Save(rec: Record, db: SaveOutcome): (r: Run)
    ensures |r.trace| >= 1 && r.trace[0] == Persist(SaveOp)
    ensures db.SaveFailed? ==> r == Run([Persist(SaveOp)], Some(PersistenceError))
    ensures AllSends(r.trace[1..])
    ensures forall i :: 1 <= i < |r.trace| ==> r.trace[i].action == GetAction(rec.config, SaveEvent(rec))
    ensures db.Saved? ==> |r.trace| <= 1 + |Targets(AfterSave(rec, db.pk))|
    ensures db.Saved? ==> forall i {:trigger r.trace[i]} :: 1 <= i < |r.trace| ==>
              r.trace[i].target == Targets(AfterSave(rec, db.pk))[i - 1]
    ensures db.Saved? ==> (r.error.None? <==> |r.trace| == 1 + |Targets(AfterSave(rec, db.pk))|)
  {
    match db
    case SaveFailed => Run([Persist(SaveOp)], Some(PersistenceError))
    case Saved(pk) =>
      var b := Broadcast(AfterSave(rec, pk), SaveEvent(rec));
      Run([Persist(SaveOp)] + b.trace, b.error)
  }

  /** The events after a successful save are the broadcast's, in order. */
  lemma SaveShift(rec: Record, pk: string, i: nat)
    requires 1 <= i < |Save(rec, Saved(pk)).trace|
    ensures Save(rec, Saved(pk)).trace[i] == Broadcast(AfterSave(rec, pk), SaveEvent(rec)).trace[i - 1]
  {
  }

  /** Every send after a successful save is what `send_broadcast` makes of
      the matching target of the saved instance. */
  lemma SaveSends(rec: Record, pk: string, i: nat)
    requires 1 <= i < |Save(rec, Saved(pk)).trace|
    ensures var after := AfterSave(rec, pk);
            Ok(Save(rec, Saved(pk)).trace[i])
            == SendBroadcast(after, Targets(after)[i - 1], GetAction(rec.config, SaveEvent(rec)))
  {
    var after := AfterSave(rec, pk);
    var action := GetAction(rec.config, SaveEvent(rec));
    SaveShift(rec, pk, i);
    SendAllMade(after, Targets(after), action, i - 1);
  }

  /** A successful save whose broadcast raises ends with the error of the
      first target of the saved instance left unsent. */
  lemma SaveRaises(rec: Record, pk: string)
    requires Save(rec, Saved(pk)).error.Some?
    ensures var r := Save(rec, Saved(pk));
            var after := AfterSave(rec, pk);
            SendBroadcast(after, Targets(after)[|r.trace| - 1], GetAction(rec.config, SaveEvent(rec)))
            == Err(r.error.value)
  {
    var after := AfterSave(rec, pk);
    SendAllFailed(after, Targets(after), GetAction(rec.config, SaveEvent(rec)));
  }

  /** After a successful save, every send carries the insert action exactly
      when the instance was being added (for a model that inserts by
      appending or prepending). */
  lemma SaveCreatedIffAdding(rec: Record, pk: string, i: nat)
    requires rec.config.insertsBy in {Append, Prepend}
    requires 1 <= i < |Save(rec, Saved(pk)).trace|
    ensures Save(rec, Saved(pk)).trace[i].action == rec.config.insertsBy <==> rec.adding
    ensures Save(rec, Saved(pk)).trace[i].action == Replace <==> !rec.adding
  {
  }

  /** The self-send after a save names the record by the primary key the
      save left, not the one it had before. */
  lemma SaveSelfSendSeesNewPk(rec: Record, pk: string)
    requires rec.config.broadcastSelf && rec.selfRef.sameModel && LabelOk(rec.meta)
    ensures var r := Save(rec, Saved(pk));
            |r.trace| >= 2 && r.trace[1].domTarget == Lower(rec.meta.verboseName) + "_" + pk
  {
    var after := AfterSave(rec, pk);
    assert Targets(after)[0] == Instance(rec.selfRef);
    BroadcastSucceedsIff(after, SaveEvent(rec));
    assert SendBroadcast(after, Targets(after)[0], GetAction(rec.config, SaveEvent(rec))).Ok?;
  }

  /** `delete`: broadcast DELETED first, then call the ORM's own delete,
      which is never reached when a send raised. */
  function Delete(rec: Record, deleted: bool): (r: Run)
    ensures forall i :: 0 <= i < |r.trace| - 1 ==> r.trace[i].Send? && r.trace[i].action == Remove
    ensures Persist(DeleteOp) in r.trace <==> Broadcast(rec, Deleted).error.None?
    ensures Persist(DeleteOp) in r.trace ==> r.trace[|r.trace| - 1] == Persist(DeleteOp)
    ensures r.error.None? <==> Broadcast(rec, Deleted).error.None? && deleted
    ensures |Broadcast(rec, Deleted).trace| <= |r.trace|
    ensures r.trace[..|Broadcast(rec, Deleted).trace|] == Broadcast(rec, Deleted).trace
    ensures Broadcast(rec, Deleted).error.Some? ==> r == Broadcast(rec, Deleted)
    ensures Broadcast(rec, Deleted).error.None? ==> |r.trace| == |Broadcast(rec, Deleted).trace| + 1
    ensures Broadcast(rec, Deleted).error.None? && !deleted ==> r.error == Some(PersistenceError)
  {
    var b := Broadcast(rec, Deleted);
    if b.error.Some? then b
    else Run(b.trace + [Persist(DeleteOp)], if deleted then None else Some(PersistenceError))
  }

  /** Every send a delete makes is what `send_broadcast` makes of the
      matching target with REMOVE, whether or not the row is deleted. */
  lemma DeleteSends(rec: Record, deleted: bool, i: nat)
    requires i < |Broadcast(rec, Deleted).trace|
    ensures Ok(Delete(rec, deleted).trace[i]) == SendBroadcast(rec, Targets(rec)[i], Remove)
  {
    var made := Broadcast(rec, Deleted).trace;
    assert Delete(rec, deleted).trace[i] == made[i];
    SendAllMade(rec, Targets(rec), Remove, i);
  }

  /** A failing delete still leaves every DELETED send already made. */
  lemma DeleteFailureAfterSends(rec: Record)
    requires Broadcast(rec, Deleted).error.None?
    ensures var r := Delete(rec, false);
            && r.error == Some(PersistenceError)
            && |r.trace| == |Targets(rec)| + 1
            && r.trace[..|Targets(rec)|] == Broadcast(rec, Deleted).trace
  {
    var b := Broadcast(rec, Deleted);
    assert (b.trace + [Persist(DeleteOp)])[..|b.trace|] == b.trace;
  }
}
