/**
 * The course discussion panel: asking a question, replying to a thread and
 * liking a thread or a reply.  Every handler computes a new list from the
 * old one; the server's answer is a parameter (`None`, or `false`, for a
 * failed request), and a failed request leaves the list as it was.
 */
module Discussion {
  import opened Seqs
  import opened Text

  datatype Reply = Reply(id: nat, content: string, likes: nat, isLiked: bool)

  datatype Thread = Thread(id: nat, content: string, likes: nat, isLiked: bool, replies: seq<Reply>)

  /** The panel's state: the threads, the two text boxes and the thread being answered. */
  datatype Panel = Panel(discussions: seq<Thread>, newQuestion: string, replyText: string, replyingTo: Option<nat>)

  /** `!text.trim()`: empty once the white space is removed. */
  predicate Blank(text: string)
  {
    JsTrim(text) == ""
  }

  lemma BlankIsAllWhitespace(text: string)
    ensures Blank(text) <==> forall k :: 0 <= k < |text| ==> IsJsWhitespace(text[k])
  {
  }

  /**
   * `handleAskQuestion`: a blank question sends nothing; a posted question
   * goes first and clears the box; a failure changes nothing.
   */
  function AskQuestion(p: Panel, posted: Option<Thread>): (r: Panel)
    ensures Blank(p.newQuestion) || posted.None? ==> r == p
    ensures !Blank(p.newQuestion) && posted.Some? ==>
              r == p.(discussions := [posted.value] + p.discussions, newQuestion := "")
    ensures !Blank(p.newQuestion) && posted.Some? ==> r.discussions[1..] == p.discussions
  {
    if Blank(p.newQuestion) then p
    else match posted
      case None => p
      case Some(t) => p.(discussions := [t] + p.discussions, newQuestion := "")
  }

  /** The threads with the reply appended to every thread whose id matches. */
  function WithReply(ds: seq<Thread>, discussionId: nat, reply: Reply): (r: seq<Thread>)
    ensures |r| == |ds|
    ensures forall i :: 0 <= i < |ds| && ds[i].id == discussionId ==>
              r[i] == ds[i].(replies := ds[i].replies + [reply])
    ensures forall i :: 0 <= i < |ds| && ds[i].id != discussionId ==> r[i] == ds[i]
  {
    Map(ds, (d: Thread) => if d.id == discussionId then d.(replies := d.replies + [reply]) else d)
  }

  /**
   * `handleReply`: a blank reply sends nothing; a posted reply is appended
   * to its thread, the box is cleared and the reply form closed; a failure
   * changes nothing.
   */
  function ReplyTo(p: Panel, discussionId: nat, posted: Option<Reply>): (r: Panel)
    ensures Blank(p.replyText) || posted.None? ==> r == p
    ensures !Blank(p.replyText) && posted.Some? ==>
              r.discussions == WithReply(p.discussions, discussionId, posted.value)
              && r.replyText == "" && r.replyingTo == None && r.newQuestion == p.newQuestion
  {
    if Blank(p.replyText) then p
    else match posted
      case None => p
      case Some(reply) =>
        p.(discussions := WithReply(p.discussions, discussionId, reply), replyText := "", replyingTo := None)
  }

  function ReplyCount(t: Thread): int
  {
    |t.replies|
  }

  function TotalReplies(ds: seq<Thread>): int
  {
    Sum(ds, ReplyCount)
  }

  predicate DistinctThreadIds(ds: seq<Thread>)
  {
    forall i, j :: 0 <= i < j < |ds| ==> ds[i].id != ds[j].id
  }

  /** With distinct thread ids, a reply to an existing thread adds exactly one reply overall. */
  lemma ReplyAddsOne(ds: seq<Thread>, k: nat, reply: Reply)
    requires DistinctThreadIds(ds) && k < |ds|
    ensures TotalReplies(WithReply(ds, ds[k].id, reply)) == TotalReplies(ds) + 1
  {
    var updated := ds[k].(replies := ds[k].replies + [reply]);
    var r := WithReply(ds, ds[k].id, reply);
    assert r == ds[k := updated];
    SumUpdate(ds, k, updated, ReplyCount);
  }

  /** A reply to an id no thread has leaves the list as it was. */
  lemma ReplyToUnknownThread(ds: seq<Thread>, discussionId: nat, reply: Reply)
    requires forall i :: 0 <= i < |ds| ==> ds[i].id != discussionId
    ensures WithReply(ds, discussionId, reply) == ds
  {
  }

  function LikedReply(r: Reply, replyId: nat): Reply
  {
    if r.id == replyId then r.(likes := r.likes + 1, isLiked := true) else r
  }

  /**
   * The threads after a like: a thread like marks the matching thread; a
   * reply like marks every matching reply in every thread.
   */
  function WithLike(ds: seq<Thread>, targetId: nat, isReply: bool): (r: seq<Thread>)
    ensures |r| == |ds|
    ensures !isReply ==> forall i :: 0 <= i < |ds| ==>
              r[i] == (if ds[i].id == targetId then ds[i].(likes := ds[i].likes + 1, isLiked := true) else ds[i])
    ensures isReply ==> forall i :: 0 <= i < |ds| ==>
              r[i].id == ds[i].id && r[i].likes == ds[i].likes && r[i].isLiked == ds[i].isLiked
              && r[i].content == ds[i].content && |r[i].replies| == |ds[i].replies|
    ensures isReply ==> forall i, j :: 0 <= i < |ds| && 0 <= j < |ds[i].replies| ==>
              r[i].replies[j] == LikedReply(ds[i].replies[j], targetId)
  {
    Map(ds, (d: Thread) =>
      if !isReply && d.id == targetId then d.(likes := d.likes + 1, isLiked := true)
      else if isReply then d.(replies := Map(d.replies, (x: Reply) => LikedReply(x, targetId)))
      else d)
  }

  /** `handleLike`: a failed request changes nothing. */
  function Like(p: Panel, targetId: nat, isReply: bool, ok: bool): (r: Panel)
    ensures !ok ==> r == p
    ensures ok ==> r == p.(discussions := WithLike(p.discussions, targetId, isReply))
  {
    if ok then p.(discussions := WithLike(p.discussions, targetId, isReply)) else p
  }

  function ThreadLikes(t: Thread): int
  {
    t.likes
  }

  /** With distinct thread ids, liking a thread adds exactly one like to the thread total. */
  lemma ThreadLikeAddsOne(ds: seq<Thread>, k: nat)
    requires DistinctThreadIds(ds) && k < |ds|
    ensures Sum(WithLike(ds, ds[k].id, false), ThreadLikes) == Sum(ds, ThreadLikes) + 1
  {
    var updated := ds[k].(likes := ds[k].likes + 1, isLiked := true);
    assert WithLike(ds, ds[k].id, false) == ds[k := updated];
    SumUpdate(ds, k, updated, ThreadLikes);
  }

  /** After a like the item is marked liked, so its button is disabled and a second like cannot be sent. */
  lemma LikedItemsAreDisabled(ds: seq<Thread>, targetId: nat, isReply: bool)
    ensures !isReply ==> forall i :: 0 <= i < |ds| && ds[i].id == targetId ==> WithLike(ds, targetId, isReply)[i].isLiked
    ensures isReply ==> forall i, j :: 0 <= i < |ds| && 0 <= j < |ds[i].replies| && ds[i].replies[j].id == targetId ==>
              WithLike(ds, targetId, isReply)[i].replies[j].isLiked
  {
  }
}
