# turbo-django broadcasting mixins in Dafny

turbo-django pushes Turbo Stream fragments to browsers whenever a Django
model instance changes. The mixins in `turbo/mixins.py` hold the policy:

- which targets an instance broadcasts to. This is the instance itself when
  `broadcast_self` is set, then one target per `broadcasts_to` entry, in order.
  An entry resolves to the attribute's value when the instance has that
  attribute, and to the entry's own name otherwise.
- which stream action each lifecycle event becomes (`get_action`).
- how the template name, the DOM target and the template context are derived
  from the model's metadata.
- where the broadcast happens around `save` (after persisting) and `delete`
  (before persisting).

This project models that policy as pure functions over immutable data. The
ORM and `turbo.send_broadcast` are replaced by inputs and by a trace of
effects. The trace lists `Persist(op)` events and
`Send(target, domTarget, action, template, context)` events. Each call also
reports the exception it ended with, if any.

Files:

- `text.dfy` (module `Text`): ASCII `str.lower()`, `str.split(sep)` and its
  inverse `sep.join`.
- `turbo.dfy` (module `Turbo`): the shared vocabulary.
  - Lifecycle events, stream actions and targets.
  - Context values, the trace events and the `Result`/`Option` wrappers.
  - The three exceptions that can escape: `ValueError`, `AttributeError`
    and a persistence error.
- `mixins.dfy` (module `Mixins`): the two mixin classes, the fan-out, and
  `save`/`delete`.
- `scenarios.dfy` (module `Scenarios`): worked examples. One is a
  `blog.Comment` that broadcasts to itself and its post. The other is a
  model that broadcasts to a literal channel name.

Modelling choices that follow the code:

- The label split `label.lower().split(".")` raises `ValueError` unless the
  label holds exactly one dot. It is modelled as an error result rather than
  excluded by a precondition.
  - `append_context` always splits the label, even when a template override
    is set. So a malformed label makes every send fail, override or not.
- `send_broadcast` computes its arguments in order: DOM target, then
  template, then context. A target that is not a model and has no `lower`
  (`None` in an unset foreign key, a number) raises `AttributeError` before
  any label error can surface.
  - `hasattr` is true for an attribute holding `None`, so such a field is
    not replaced by its name. It raises instead.
- `get_dom_target` compares `self._meta.model` (a class) with the target (an
  instance). The outcome of that comparison is an explicit flag, `sameModel`,
  on each model target.
  - Both branches read the broadcasting instance's own metadata, never the
    target's. A related post is therefore addressed by the comment's plural
    label.
- `save` reads `_state.adding` before persisting and broadcasts with the
  instance as the save left it: the new primary key, no longer adding.
- An exception from a send ends `broadcast`. A failing broadcast in
  `delete` means the row is never deleted.

## Model

| member | source | states |
|---|---|---|
| Text.Lower | turbo/mixins.py:44 | `lower()` keeps the length, leaves no upper-case letter, keeps every other character in place and maps each upper-case letter to its lower-case partner |
| Text.LowerIdempotent | turbo/mixins.py:87 | lowering an already lowered string changes nothing |
| Text.Split | turbo/mixins.py:44 | `split(".")` gives one more piece than there are dots, no piece holds a dot, and joining the pieces with "." gives the string back |
| Text.SplitJoin | turbo/mixins.py:44 | splitting undoes joining dot-free pieces |
| Text.CountDotsLower | turbo/mixins.py:44 | lowering keeps the number of dots, so lowering first does not change whether the label unpacks |
| Text.LowerJoin | turbo/mixins.py:44 | lowering a joined string is joining the lowered pieces |
| Text.SplitLower | turbo/mixins.py:44 | the pieces of the lowered label are the lowered pieces of the label |
| Mixins.LabelParts | turbo/mixins.py:44 | the two-name unpack succeeds exactly when the label has one dot and otherwise raises ValueError; on success the two dot-free names rejoined with "." are the lowered label |
| Mixins.LabelPartsOf | turbo/mixins.py:49 | a label made of two dot-free names unpacks into exactly those names, lower-cased |
| Mixins.GetTurboStreamsTemplate | turbo/mixins.py:41-45 | an override that is not None is returned as is; otherwise the result is a template name exactly when the label unpacks, and ValueError when it does not |
| Mixins.TemplateFromLabel | turbo/mixins.py:44-45 | without an override, a label "App.Model" gives "app/model.html", from the lowered halves of the label |
| Mixins.AppendContext | turbo/mixins.py:47-53 | succeeds exactly when the label unpacks; its keys are exactly "object" and the lowered model name, and both map to the instance |
| Mixins.GetContext | turbo/mixins.py:26-29 | the keys are "model_template" plus the extra keys; every extra entry wins; "model_template" is the template name unless the extra entries supply that key |
| Mixins.BaseContext | turbo/mixins.py:23-29 | with the base mixin's empty `append_context`, the context is the "model_template" entry alone |
| Mixins.ModelContext | turbo/mixins.py:26-29 | the model mixin's context succeeds exactly when the label unpacks; its keys are "model_template", "object" and the model name; "model_template" holds the template unless the model name is "model_template" itself |
| Mixins.GetAction | turbo/mixins.py:55-64 | total: CREATED gives `inserts_by`, DELETED gives REMOVE, and UPDATED and every other event give REPLACE; the result is always one of those three |
| Mixins.ActionDeterminesEvent | turbo/mixins.py:55-64 | for a model inserting by append or prepend, each action is produced by exactly one event class, in both directions |
| Mixins.GetDomTarget | turbo/mixins.py:78-87 | a string target gives its lowered text; a model target gives the lowered plural label, or the lowered singular label, "_" and the primary key; any other value raises AttributeError, and only such a value does |
| Mixins.DomTargetIgnoresTarget | turbo/mixins.py:78-85 | a model target's DOM name depends only on the broadcasting instance and the comparison's outcome, not on which target it is |
| Mixins.ChannelDomTargetStable | turbo/mixins.py:86-87 | a channel's DOM name is in normal form: naming it again gives it back |
| Mixins.RecordDomTargetParts | turbo/mixins.py:85 | the single-record DOM name splits back into the lowered singular label, one underscore and the primary key unchanged |
| Mixins.Payload | turbo/mixins.py:32-33 | the template and the context a send passes exist exactly when the label unpacks, else ValueError |
| Mixins.SendBroadcast | turbo/mixins.py:31-33 | a send succeeds exactly when the target has `lower` or is a model and the label unpacks; AttributeError comes before ValueError; the send carries the given target and action |
| Mixins.SendArguments | turbo/mixins.py:31-33 | a send's DOM target is that of its own target, while its template and context are those of the broadcasting instance |
| Mixins.ResolveAll | turbo/mixins.py:72-76 | each `broadcasts_to` entry resolves, in order, to the attribute's value when the attribute exists and to the entry's name otherwise |
| Mixins.Targets | turbo/mixins.py:69-76 | there is one target per `broadcasts_to` entry plus one for the instance when `broadcast_self` holds, and then the instance comes first |
| Mixins.TargetAt | turbo/mixins.py:72-76 | the `k`th entry's target follows those of the self-send and the earlier entries |
| Mixins.SendAll | turbo/mixins.py:69-76 | sends go out in target order, each to its own target with the same action; the run completes exactly when every target was sent to |
| Mixins.SendAllMade | turbo/mixins.py:69-76 | every send in the trace is exactly what `send_broadcast` makes of its target |
| Mixins.SendAllFailed | turbo/mixins.py:69-76 | a run that ends with an error ends with the error of the first target left unsent |
| Mixins.Broadcast | turbo/mixins.py:66-76 | a broadcast traces only sends, all with `get_action(model_action)`, the `i`th to the `i`th target; it completes exactly when every target was sent to |
| Mixins.BroadcastSucceedsIff | turbo/mixins.py:66-76 | a broadcast completes exactly when there are no targets, or when the label unpacks and no target lacks `lower` |
| Mixins.BadLabelSendsNothing | turbo/mixins.py:66-76 | with a malformed label nothing is sent, and the broadcast raises exactly when it has a target |
| Mixins.BroadcastCount | turbo/mixins.py:66-76 | a completed broadcast sends `(broadcast_self ? 1 : 0) + len(broadcasts_to)` times |
| Mixins.BroadcastSelfFirst | turbo/mixins.py:69-70 | with `broadcast_self`, the first send goes to the instance itself |
| Mixins.EntryInRange | turbo/mixins.py:72-76 | in a completed broadcast every `broadcasts_to` entry has its send, after the self-send |
| Mixins.BroadcastEntrySend | turbo/mixins.py:72-76 | the send for the `k`th entry is exactly what `send_broadcast` makes of that entry's resolved target |
| Mixins.NoDeduplication | turbo/mixins.py:72-76 | two entries naming the same target each get their own, identical send; nothing is merged |
| Mixins.SendAllSent | turbo/mixins.py:72-76 | a send that succeeds is appended to the trace, and the rest of the run follows it |
| Mixins.SendAllRaised | turbo/mixins.py:72-76 | a send that raises ends the run with its error and adds nothing to the trace |
| Mixins.SendAllStep | turbo/mixins.py:72-76 | sending to the first pending target either extends the trace by that send or ends the run with its error |
| Mixins.EntryStep | turbo/mixins.py:72-76 | the `i`th entry's send either extends the trace or ends the run with its error |
| Mixins.EntriesOnly | turbo/mixins.py:69-76 | without `broadcast_self`, a broadcast is the run over the entries alone |
| Mixins.SelfThenEntries | turbo/mixins.py:69-76 | with `broadcast_self`, a broadcast is the self-send followed by the run over the entries, unless the self-send raises |
| Mixins.SelfStep | turbo/mixins.py:69-76 | the self-send, when enabled, either ends the broadcast with its error or precedes the entries' run |
| Mixins.BroadcastLoop | turbo/mixins.py:66-76 | the loop the source writes, self-send then one send per entry stopping at the first exception, yields exactly the broadcast's trace and error |
| Mixins.Save | turbo/mixins.py:89-92 | the save is recorded first; when it fails nothing else happens; when it succeeds the broadcast of the saved instance follows: the `i`th send goes to its `i`th target, all carry the action of CREATED if the instance was being added before the call and UPDATED otherwise, and the call completes exactly when every target was sent to |
| Mixins.SaveShift | turbo/mixins.py:91-92 | after a successful save, the events following the persist are the broadcast's, in order |
| Mixins.SaveSends | turbo/mixins.py:89-92 | every send after a successful save is exactly what `send_broadcast` makes of the matching target of the saved instance, with the action of the pre-save event |
| Mixins.SaveRaises | turbo/mixins.py:89-92 | a save whose broadcast raises ends with the error of the first target left unsent |
| Mixins.SaveCreatedIffAdding | turbo/mixins.py:89-92 | for an append or prepend model, a send after a save inserts exactly when the instance was being added, and replaces exactly when it was not |
| Mixins.SaveSelfSendSeesNewPk | turbo/mixins.py:89-92 | the self-send after a save names the instance by the primary key the save left |
| Mixins.Delete | turbo/mixins.py:94-96 | the trace starts with the DELETED broadcast, every send a REMOVE; a broadcast that raises is the whole outcome; otherwise exactly one event follows, the delete, and the call succeeds exactly when the delete did, a failed delete reporting the persistence error |
| Mixins.DeleteSends | turbo/mixins.py:94-96 | every send of a delete is exactly what `send_broadcast` makes of the matching target with REMOVE, whether or not the row is then deleted |
| Mixins.DeleteFailureAfterSends | turbo/mixins.py:94-96 | a failing delete still leaves every send of the completed broadcast in the trace, followed by the delete |
| Scenarios.CommentLabel | turbo/mixins.py:44 | "blog.Comment" unpacks into "blog" and "comment" |
| Scenarios.CommentNames | turbo/mixins.py:26-29 | the comment's context maps "model_template" to "blog/comment.html", and both "object" and "comment" to the instance |
| Scenarios.CommentDomTargets | turbo/mixins.py:78-85 | a comment names a model target "comments", or "comment_" and its key when the comparison says equal |
| Scenarios.CommentCreated | turbo/mixins.py:89-92 | saving a new comment records the save, then an append to itself and an append to its post named "comments", both with the comment's template and context |
| Scenarios.LiteralChannel | turbo/mixins.py:72-76 | deleting a record whose only entry is a name with no attribute sends REMOVE to that name, lower-cased as its DOM target, and then deletes |

`Mixins.Resolve` (the attribute-or-name choice of lines 73-76) and
`Mixins.SaveEvent` (CREATED or UPDATED from the state before saving, lines
90 and 92) are helpers; the `Mixins.ResolveAll`, `Mixins.Save` and
`Mixins.SaveCreatedIffAdding` rows state what they contribute.

## Left out

- Django persistence. `super().save()` and `super().delete()` are
  outcome parameters: the new primary key or a failure for save, success or
  failure for delete. `_state.adding` is a field of the record. What the
  database does is not visible.
- `turbo.send_broadcast`. Rendering, channel delivery and the websocket
  transport are not modelled. Each call is recorded as a `Send` event, and
  the transport itself is assumed not to raise.
- Python reflection. `hasattr`/`getattr` are reduced to a map from
  attribute name to value. `isinstance(target, Model)` becomes the
  `Instance` variant of `Target`.
- The class-versus-instance comparison. Its outcome is an input flag
  (`sameModel`). In CPython a class never compares equal to an instance,
  so in practice the plural branch is taken; the model keeps both branches.
- Mixins.GetDomTarget: a target that is not a model but has a `lower`
  method of its own (a `bytes` value, any object defining `lower`) is not
  representable; every non-model, non-string target is `OtherValue` and
  raises AttributeError, whereas the source would format whatever its
  `lower` returns.
- `str.lower()` covers ASCII letters only; Unicode case mapping is not
  modelled.
- `str(self.pk)` is taken as given text. For an auto-assigned key it is
  "None" before the first save; a key with an explicit value or a default
  (a `uuid4` default, say) is already set.
- The base mixin's `get_turbo_streams_template` and `get_dom_target` raise
  `NotImplementedError`. Only the model mixin's overrides are modelled.
- `default_stream_action` is declared but never read by the core.
  `inserts_by` is restricted to the four stream actions.
- `*args`/`**kwargs` of `save` and `delete` are passed through to the ORM
  and do not affect broadcasting.
- `model_action` values other than CREATED, UPDATED and DELETED are one
  variant, `OtherAction`, carrying a tag.
