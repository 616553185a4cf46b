/**
 The vocabulary the mixins share with the `turbo` package: lifecycle events,
 stream actions, broadcast targets, the template context, and the trace of
 external effects (persistence calls on the ORM and calls of
 `turbo.send_broadcast`) that one save or delete produces.
 */
module Turbo {

  datatype Option<T> = None | Some(value: T)

  /** The exceptions the mixins can raise or let through. */
  datatype PyError =
    | ValueError       // the model label does not unpack into app and model name
    | AttributeError   // `.lower()` on a target that is not a model and has no `lower`
    | PersistenceError // the ORM's own save or delete raised

  datatype Result<T> = Ok(value: T) | Err(error: PyError) {
    predicate IsFailure() {
      Err?
    }

    function PropagateFailure<U>(): Result<U>
      requires Err?
    {
      Err(error)
    }

    function Extract(): T
      requires Ok?
    {
      value
    }
  }

  /** The event handed to `broadcast`: CREATED, UPDATED, DELETED, or any
      other value a caller passes. */
  datatype ModelAction = Created | Updated | Deleted | OtherAction(tag: string)

  /** How a client applies the pushed fragment to its DOM target. */
  datatype StreamAction = Append | Prepend | Replace | Remove

  /** A model instance as a broadcast target. `sameModel` is the outcome of
      the test `self._meta.model != target` negated: whether the broadcasting
      model's class compares equal to this target. */
  datatype ObjRef = ObjRef(id: nat, sameModel: bool)

  /** What `send_broadcast` is called with: the instance itself or a related
      instance, a string naming a channel, or any other value an attribute
      holds that has no `lower` (None for an unset foreign key, a number). */
  datatype Target = Instance(obj: ObjRef) | Channel(name: string) | OtherValue

  /** A template context value: the template name, or the broadcasting
      instance itself. */
  datatype Value = TemplateName(name: string) | SelfObject

  type Context = map<string, Value>

  datatype PersistOp = SaveOp | DeleteOp

  /** One external effect: a call into the ORM's own save or delete, or one
      call of `turbo.send_broadcast(target, dom_target, action, template, context)`. */
  datatype Event =
    | Persist(op: PersistOp)
    | Send(target: Target, domTarget: string, action: StreamAction, template: string, context: Context)

  /** The effects of one call, in order, and the exception it ended with. */
  datatype Run = Run(trace: seq<Event>, error: Option<PyError>)

  predicate AllSends(trace: seq<Event>) {
    forall i :: 0 <= i < |trace| ==> trace[i].Send?
  }
}
