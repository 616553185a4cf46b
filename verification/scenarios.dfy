/**
 Worked examples: a `blog.Comment` that broadcasts to its `post` and is
 saved under primary key 7, and a model broadcasting to a literal channel
 name.
 */
module Scenarios {
  import opened Text
  import opened Turbo
  import opened Mixins

  const CommentMeta := Meta("blog.Comment", "comment", "comments")

  const CommentConfig := Config(["post"], true, Append, None)

  /** A comment not yet stored, whose `post` attribute holds `post`. */
  function Comment(sameModel: bool, post: Target): Record {
    Record(CommentMeta, CommentConfig, "None", true, ObjRef(1, sameModel), map["post" := post])
  }

  const CommentContext: Context :=
    map["model_template" := TemplateName("blog/comment.html"), "object" := SelfObject, "comment" := SelfObject]

  // The one-fact lemmas below about string literals (LowerBlog through
  // CommentLabelSplits, CommentTemplateName, LowerLiteral) split the literal
  // computations into small proof obligations of their own, which keeps each
  // scenario's proof cheap.

  lemma LowerBlog()
    ensures Lower("blog") == "blog"
  {
  }

  lemma LowerComment()
    ensures Lower("Comment") == "comment"
  {
  }

  lemma LowerCommentNames()
    ensures Lower("comment") == "comment" && Lower("comments") == "comments"
  {
  }

  lemma CommentLabelSplits()
    ensures "blog.Comment" == "blog" + "." + "Comment"
    ensures '.' !in "blog" && '.' !in "Comment"
  {
  }

  /** "blog.Comment" unpacks into "blog" and "comment". */
  lemma CommentLabel()
    ensures LabelParts("blog.Comment") == Ok(("blog", "comment"))
    ensures LabelOk(CommentMeta) && ModelName(CommentMeta) == "comment"
  {
    CommentLabelSplits();
    LowerBlog();
    LowerComment();
    LabelPartsOf("blog", "Comment");
  }

  lemma CommentTemplateName()
    ensures "blog" + "/" + "comment" + ".html" == "blog/comment.html"
  {
  }

  lemma CommentTemplate(config: Config)
    requires config.templateOverride.None?
    ensures GetTurboStreamsTemplate(CommentMeta, config) == Ok("blog/comment.html")
  {
    CommentLabel();
    CommentTemplateName();
  }

  lemma CommentExtra()
    ensures AppendContext(CommentMeta) == Ok(map["object" := SelfObject, "comment" := SelfObject])
  {
    CommentLabel();
  }

  lemma CommentMerge()
    ensures GetContext("blog/comment.html", map["object" := SelfObject, "comment" := SelfObject]) == CommentContext
  {
  }

  /** The template sees the instance under "object" and "comment", and the
      template name under "model_template". */
  lemma CommentNames(config: Config)
    requires config.templateOverride.None?
    ensures ModelContext(CommentMeta, config) == Ok(CommentContext)
  {
    CommentTemplate(config);
    CommentExtra();
    CommentMerge();
  }

  lemma CommentDomTargets(pk: string, obj: ObjRef)
    ensures GetDomTarget(CommentMeta, pk, Instance(obj))
         == Ok(if obj.sameModel then "comment_" + pk else "comments")
  {
    LowerCommentNames();
    assert "comment" + "_" == "comment_";
    assert "comment" + "_" + pk == "comment_" + pk;
  }

  /** Every send of a comment to a model target carries its template and
      context. */
  lemma CommentSend(rec: Record, obj: ObjRef)
    requires rec.meta == CommentMeta && rec.config == CommentConfig
    ensures SendBroadcast(rec, Instance(obj), Append)
         == Ok(Send(Instance(obj), if obj.sameModel then "comment_" + rec.pk else "comments",
                    Append, "blog/comment.html", CommentContext))
  {
    CommentTemplate(rec.config);
    CommentNames(rec.config);
    CommentDomTargets(rec.pk, obj);
  }

  /** A broadcast to itself and one entry, both of which succeed, sends
      exactly those two. */
  lemma SelfAndOneEntry(rec: Record, event: ModelAction, name: string)
    requires rec.config.broadcastSelf && rec.config.broadcastsTo == [name]
    requires SendBroadcast(rec, Instance(rec.selfRef), GetAction(rec.config, event)).Ok?
    requires SendBroadcast(rec, Resolve(rec.attrs, name), GetAction(rec.config, event)).Ok?
    ensures Broadcast(rec, event)
         == Run([SendBroadcast(rec, Instance(rec.selfRef), GetAction(rec.config, event)).value,
                 SendBroadcast(rec, Resolve(rec.attrs, name), GetAction(rec.config, event)).value],
                None)
  {
    var action := GetAction(rec.config, event);
    var s1 := SendBroadcast(rec, Instance(rec.selfRef), action).value;
    var s2 := SendBroadcast(rec, Resolve(rec.attrs, name), action).value;
    var names := rec.config.broadcastsTo;
    SelfStep(rec, event);
    assert names[0..] == names;
    EntryStep(rec, action, [s1], names, 0);
    assert names[1..] == [];
    assert [s1] + [s2] + [] == [s1, s2];
  }

  /** A save whose broadcast sends two events records the save before them. */
  lemma SaveThenTwoSends(rec: Record, pk: string, s1: Event, s2: Event)
    requires Broadcast(AfterSave(rec, pk), SaveEvent(rec)) == Run([s1, s2], None)
    ensures Save(rec, Saved(pk)) == Run([Persist(SaveOp), s1, s2], None)
  {
    assert [Persist(SaveOp)] + [s1, s2] == [Persist(SaveOp), s1, s2];
  }

  /** Creating the comment persists it, then sends to itself and to its post,
      both with the insert action, the "blog/comment.html" template and the
      same context. The self-send is named by the key the save left when the
      class compares equal to the instance and by the plural label otherwise;
      the send to the post is named by the comment's own plural label. */
  lemma CommentCreated(sameModel: bool, pk: string)
    ensures var self := Instance(ObjRef(1, sameModel));
            var post := Instance(ObjRef(2, false));
            Save(Comment(sameModel, post), Saved(pk))
            == Run([Persist(SaveOp),
                    Send(self, if sameModel then "comment_" + pk else "comments", Append, "blog/comment.html", CommentContext),
                    Send(post, "comments", Append, "blog/comment.html", CommentContext)],
                   None)
  {
    var post := Instance(ObjRef(2, false));
    var rec := Comment(sameModel, post);
    var after := AfterSave(rec, pk);
    assert Resolve(after.attrs, "post") == post;
    CommentSend(after, ObjRef(1, sameModel));
    CommentSend(after, ObjRef(2, false));
    SelfAndOneEntry(after, Created, "post");
    var s1 := Send(Instance(ObjRef(1, sameModel)), if sameModel then "comment_" + pk else "comments",
                   Append, "blog/comment.html", CommentContext);
    var s2 := Send(post, "comments", Append, "blog/comment.html", CommentContext);
    SaveThenTwoSends(rec, pk, s1, s2);
  }

  lemma LowerLiteral()
    ensures Lower("Some_Literal") == "some_literal"
  {
  }

  /** Deleting a record that broadcasts to one entry only, whose send
      succeeds, sends it and then deletes. */
  lemma DeleteOneEntry(rec: Record, name: string)
    requires !rec.config.broadcastSelf && rec.config.broadcastsTo == [name]
    requires SendBroadcast(rec, Resolve(rec.attrs, name), Remove).Ok?
    ensures Delete(rec, true)
         == Run([SendBroadcast(rec, Resolve(rec.attrs, name), Remove).value, Persist(DeleteOp)], None)
  {
    var s1 := SendBroadcast(rec, Resolve(rec.attrs, name), Remove).value;
    var names := rec.config.broadcastsTo;
    SelfStep(rec, Deleted);
    assert names[0..] == names;
    EntryStep(rec, Remove, [], names, 0);
    assert names[1..] == [];
    assert [] + [s1] + [] == [s1];
  }

  /** A `broadcasts_to` entry with no attribute behind it is sent to the
      lower-cased entry name. */
  lemma LiteralChannel(pk: string)
    ensures var rec := Record(CommentMeta, Config(["Some_Literal"], false, Append, Some("x.html")), pk, false, ObjRef(1, false), map[]);
            var r := Delete(rec, true);
            |r.trace| == 2 && r.trace[0].Send? && r.trace[0].target == Channel("Some_Literal")
            && r.trace[0].domTarget == "some_literal" && r.trace[0].action == Remove
            && r.trace[1] == Persist(DeleteOp) && r.error == None
  {
    var rec := Record(CommentMeta, Config(["Some_Literal"], false, Append, Some("x.html")), pk, false, ObjRef(1, false), map[]);
    CommentLabel();
    LowerLiteral();
    assert Resolve(rec.attrs, "Some_Literal") == Channel("Some_Literal");
    SendArguments(rec, Channel("Some_Literal"), Remove);
    DeleteOneEntry(rec, "Some_Literal");
  }
}
