/** The pull request comment that every push updates in place (`ci/github.py`, `ci/runner.py`). */
module Comments {
  import opened Options
  import opened Text
  import opened Markdown
  import opened Pages
  import opened Sequences

  datatype Comment = Comment(id: nat, body: string)

  const MAX_PAGES := 20
  const REACH := PER_PAGE * MAX_PAGES

  predicate Marked(c: Comment) {
    Contains(c.body, COMMENT_MARKER)
  }

  /** Index of the first marked comment, or the length when there is none. */
  function FirstMarked(comments: seq<Comment>): (k: nat)
    ensures k <= |comments|
    ensures forall i :: 0 <= i < k ==> !Marked(comments[i])
    ensures k < |comments| ==> Marked(comments[k])
  {
    if comments == [] || Marked(comments[0]) then 0 else 1 + FirstMarked(comments[1..])
  }

  /** What the paged search can find: the first marked comment, if it is within reach. */
  function Findable(comments: seq<Comment>): Option<nat> {
    var k := FirstMarked(comments);
    if k < |comments| && k < REACH then Some(k) else None
  }

  function Without(comments: seq<Comment>, k: nat): seq<Comment>
    requires k < |comments|
  {
    comments[..k] + comments[k + 1..]
  }

  /** Identifiers are handed out once. */
  ghost predicate Numbered(comments: seq<Comment>, nextId: nat) {
    && (forall c <- comments :: c.id < nextId)
    && (forall i, j :: 0 <= i < j < |comments| ==> comments[i].id != comments[j].id)
  }

  /** The pull request's comment list, as its REST endpoints read and change it. */
  class PullRequest {
    var comments: seq<Comment>
    var nextId: nat

    ghost predicate Valid()
      reads this
    {
      Numbered(comments, nextId)
    }

    method List(page: nat) returns (batch: seq<Comment>)
      requires page >= 1
      ensures batch == Page(comments, page)
    {
      batch := Page(comments, page);
    }

    method Position(id: nat) returns (k: nat)
      ensures k <= |comments|
      ensures k < |comments| ==> comments[k].id == id
      ensures forall i :: 0 <= i < k ==> comments[i].id != id
    {
      k := 0;
      while k < |comments| && comments[k].id != id
        invariant 0 <= k <= |comments| && forall i :: 0 <= i < k ==> comments[i].id != id
      {
        k := k + 1;
      }
    }

    method Patch(id: nat, body: string)
      requires Valid()
      modifies this
      ensures Valid() && nextId == old(nextId)
      ensures forall k :: 0 <= k < |old(comments)| && old(comments)[k].id == id ==>
                comments == old(comments)[k := Comment(id, body)]
      ensures (forall c <- old(comments) :: c.id != id) ==> comments == old(comments)
    {
      var k := Position(id);
      if k < |comments| {
        comments := comments[k := Comment(id, body)];
      }
    }

    method Delete(id: nat)
      requires Valid()
      modifies this
      ensures Valid() && nextId == old(nextId)
      ensures forall k :: 0 <= k < |old(comments)| && old(comments)[k].id == id ==>
                comments == Without(old(comments), k)
      ensures (forall c <- old(comments) :: c.id != id) ==> comments == old(comments)
    {
      var k := Position(id);
      if k < |comments| {
        comments := Without(comments, k);
      }
    }

    method Post(body: string)
      requires Valid()
      modifies this
      ensures Valid() && nextId == old(nextId) + 1
      ensures comments == old(comments) + [Comment(old(nextId), body)]
    {
      comments := comments + [Comment(nextId, body)];
      nextId := nextId + 1;
    }
  }

  // ---- The client ----

  /** The paged search; it stops at a short page, and after MAX_PAGES pages. */
  method FindComment(pr: PullRequest) returns (found: Option<nat>)
    ensures match Findable(pr.comments)
            case None => found == None
            case Some(k) => found == Some(pr.comments[k].id)
  {
    var n := |pr.comments|;
    for page := 1 to MAX_PAGES + 1
      invariant PER_PAGE * (page - 1) <= n
      invariant forall i :: 0 <= i < PER_PAGE * (page - 1) ==> !Marked(pr.comments[i])
    {
      var batch := pr.List(page);
      var start := PER_PAGE * (page - 1);
      if batch == [] {
        return None;
      }
      for i := 0 to |batch|
        invariant forall j :: 0 <= j < start + i ==> !Marked(pr.comments[j])
      {
        assert batch[i] == pr.comments[start + i];
        if Marked(batch[i]) {
          return Some(batch[i].id);
        }
      }
      if |batch| < PER_PAGE {
        return None;
      }
    }
    return None;
  }

  /** Whether each call of one publish is accepted; a refused read or write raises, and nothing further is sent. */
  datatype Access = Access(mayRead: bool, mayWrite: bool)

  function Upserted(comments: seq<Comment>, nextId: nat, body: string): seq<Comment> {
    match Findable(comments)
    case Some(k) => comments[k := Comment(comments[k].id, body)]
    case None => comments + [Comment(nextId, body)]
  }

  function Deleted(comments: seq<Comment>): seq<Comment> {
    match Findable(comments)
    case Some(k) => Without(comments, k)
    case None => comments
  }

  method UpsertComment(pr: PullRequest, body: string, access: Access) returns (ok: bool)
    requires pr.Valid()
    modifies pr
    ensures pr.Valid() && (ok <==> access.mayRead && access.mayWrite)
    ensures pr.comments == if ok then Upserted(old(pr.comments), old(pr.nextId), body) else old(pr.comments)
    ensures pr.nextId == if ok && Findable(old(pr.comments)).None? then old(pr.nextId) + 1 else old(pr.nextId)
  {
    if !access.mayRead {
      return false;
    }
    var existing := FindComment(pr);
    if !access.mayWrite {
      return false;
    }
    if existing.Some? {
      pr.Patch(existing.value, body);
    } else {
      pr.Post(body);
    }
    return true;
  }

  method DeleteComment(pr: PullRequest, access: Access) returns (ok: bool)
    requires pr.Valid()
    modifies pr
    ensures pr.Valid() && (ok <==> access.mayRead && (access.mayWrite || Findable(old(pr.comments)).None?))
    ensures pr.comments == (if ok then Deleted(old(pr.comments)) else old(pr.comments)) && pr.nextId == old(pr.nextId)
  {
    if !access.mayRead {
      return false;
    }
    var existing := FindComment(pr);
    if existing.None? {
      return true;
    }
    if !access.mayWrite {
      return false;
    }
    pr.Delete(existing.value);
    return true;
  }

  datatype State = State(comments: seq<Comment>, nextId: nat)

  /** What one publish leaves: the body when there are migrations, no comment when there are none. */
  function Published(s: State, body: Option<string>, access: Access): State {
    if body.Some? then
      if access.mayRead && access.mayWrite then
        State(Upserted(s.comments, s.nextId, body.value), if Findable(s.comments).None? then s.nextId + 1 else s.nextId)
      else s
    else if access.mayRead && (access.mayWrite || Findable(s.comments).None?) then State(Deleted(s.comments), s.nextId)
    else s
  }

  /** The comment half of a run; failures are logged, never fatal. */
  method Publish(pr: PullRequest, body: Option<string>, access: Access)
    requires pr.Valid()
    modifies pr
    ensures pr.Valid()
    ensures State(pr.comments, pr.nextId) == Published(old(State(pr.comments, pr.nextId)), body, access)
  {
    if body.None? {
      var removed := DeleteComment(pr, access);
    } else {
      var posted := UpsertComment(pr, body.value, access);
    }
  }

  // ---- Whole runs ----

  function CountMarked(comments: seq<Comment>): nat {
    if comments == [] then 0 else (if Marked(comments[0]) then 1 else 0) + CountMarked(comments[1..])
  }

  function Unmarked(comments: seq<Comment>): seq<Comment> {
    if comments == [] then []
    else (if Marked(comments[0]) then [] else [comments[0]]) + Unmarked(comments[1..])
  }

  /** One event on the pull request. Others add, edit and delete comments of their own. */
  datatype Event =
    | Push(body: Option<string>, access: Access)
    | OtherPosts(text: string)
    | OtherEdits(k: nat, text: string)
    | OtherDeletes(k: nat)

  function Step(s: State, e: Event): State {
    match e
    case Push(body, access) => Published(s, body, access)
    case OtherPosts(body) => State(s.comments + [Comment(s.nextId, body)], s.nextId + 1)
    case OtherEdits(k, body) =>
      if k < |s.comments| then s.(comments := s.comments[k := Comment(s.comments[k].id, body)]) else s
    case OtherDeletes(k) => if k < |s.comments| then s.(comments := Without(s.comments, k)) else s
  }

  /** Rendered bodies carry the marker; nobody else writes it or touches a comment that has it. */
  predicate Allowed(s: State, e: Event) {
    match e
    case Push(body, _) => body.Some? ==> Contains(body.value, COMMENT_MARKER)
    case OtherPosts(body) => !Contains(body, COMMENT_MARKER)
    case OtherEdits(k, body) => k < |s.comments| ==> !Marked(s.comments[k]) && !Contains(body, COMMENT_MARKER)
    case OtherDeletes(k) => k < |s.comments| ==> !Marked(s.comments[k])
  }

  function Run(s: State, events: seq<Event>): State
    decreases |events|
  {
    if events == [] then s else Run(Step(s, events[0]), events[1..])
  }

  /** Every event is allowed where it happens, and no push finds more comments than the search can page through. */
  predicate Plausible(s: State, events: seq<Event>)
    decreases |events|
  {
    events != [] ==>
      && Allowed(s, events[0])
      && (events[0].Push? ==> |s.comments| <= REACH)
      && Plausible(Step(s, events[0]), events[1..])
  }

  lemma {:induction false} CountSplit(a: seq<Comment>, b: seq<Comment>)
    ensures CountMarked(a + b) == CountMarked(a) + CountMarked(b)
    ensures Unmarked(a + b) == Unmarked(a) + Unmarked(b)
  {
    if a == [] {
      assert a + b == b;
    } else {
      assert (a + b)[1..] == a[1..] + b;
      CountSplit(a[1..], b);
    }
  }

  lemma {:induction false} NoneMarked(comments: seq<Comment>)
    requires forall c <- comments :: !Marked(c)
    ensures CountMarked(comments) == 0 && Unmarked(comments) == comments
  {
    if comments != [] {
      NoneMarked(comments[1..]);
    }
  }

  lemma CountOne(c: Comment)
    ensures CountMarked([c]) == (if Marked(c) then 1 else 0) && Unmarked([c]) == if Marked(c) then [] else [c]
  {
    hide Marked;
  }

  lemma PartsAround(comments: seq<Comment>, k: nat)
    requires k < |comments|
    ensures comments == comments[..k] + ([comments[k]] + comments[k + 1..])
  {}

  /** Around one position the counts add up. */
  lemma CountAround(comments: seq<Comment>, k: nat)
    requires k < |comments|
    ensures CountMarked(comments) ==
            CountMarked(comments[..k]) + CountMarked([comments[k]]) + CountMarked(comments[k + 1..])
    ensures Unmarked(comments) ==
            Unmarked(comments[..k]) + Unmarked([comments[k]]) + Unmarked(comments[k + 1..])
  {
    hide CountMarked, Unmarked;
    PartsAround(comments, k);
    CountSplit(comments[..k], [comments[k]] + comments[k + 1..]);
    CountSplit([comments[k]], comments[k + 1..]);
    Associative(Unmarked(comments[..k]), Unmarked([comments[k]]), Unmarked(comments[k + 1..]));
  }

  lemma CountReplaced(comments: seq<Comment>, k: nat, c: Comment)
    requires k < |comments|
    ensures CountMarked(comments[k := c]) + (if Marked(comments[k]) then 1 else 0) ==
            CountMarked(comments) + if Marked(c) then 1 else 0
    ensures Marked(comments[k]) && Marked(c) ==> Unmarked(comments[k := c]) == Unmarked(comments)
  {
    hide CountMarked, Unmarked, Marked;
    var after := comments[k := c];
    CountAround(comments, k);
    CountAround(after, k);
    CountOne(comments[k]);
    CountOne(c);
    assert after[..k] == comments[..k] && after[k + 1..] == comments[k + 1..];
  }

  lemma CountRemoved(comments: seq<Comment>, k: nat)
    requires k < |comments|
    ensures CountMarked(Without(comments, k)) + (if Marked(comments[k]) then 1 else 0) == CountMarked(comments)
    ensures Marked(comments[k]) ==> Unmarked(Without(comments, k)) == Unmarked(comments)
  {
    hide CountMarked, Unmarked, Marked;
    CountAround(comments, k);
    CountOne(comments[k]);
    CountSplit(comments[..k], comments[k + 1..]);
    var front := Unmarked(comments[..k]);
    assert front + [] == front;
  }

  lemma CountIsZeroIff(comments: seq<Comment>)
    ensures FirstMarked(comments) == |comments| <==> CountMarked(comments) == 0
  {
    var k := FirstMarked(comments);
    if k < |comments| {
      CountAround(comments, k);
    } else {
      NoneMarked(comments);
    }
  }

  /** One publish within reach: other people's comments stay as they are and in order, and at most one is ours. */
  lemma PublishStep(s: State, body: Option<string>, access: Access)
    requires body.Some? ==> Contains(body.value, COMMENT_MARKER)
    requires FirstMarked(s.comments) == |s.comments| || FirstMarked(s.comments) < REACH
    ensures var t := Published(s, body, access);
            && Unmarked(t.comments) == Unmarked(s.comments)
            && (CountMarked(s.comments) <= 1 ==> CountMarked(t.comments) <= 1)
            && (access.mayRead && access.mayWrite && CountMarked(s.comments) <= 1 ==>
                  CountMarked(t.comments) == if body.Some? then 1 else 0)
  {
    var k := FirstMarked(s.comments);
    CountIsZeroIff(s.comments);
    if k < |s.comments| {
      CountRemoved(s.comments, k);
      if body.Some? {
        CountReplaced(s.comments, k, Comment(s.comments[k].id, body.value));
      }
    } else if body.Some? {
      CountSplit(s.comments, [Comment(s.nextId, body.value)]);
    }
  }

  lemma OtherStep(s: State, e: Event)
    requires !e.Push? && Allowed(s, e)
    ensures CountMarked(Step(s, e).comments) == CountMarked(s.comments)
  {
    match e
    case OtherPosts(body) => CountSplit(s.comments, [Comment(s.nextId, body)]);
    case OtherEdits(k, body) =>
      if k < |s.comments| {
        CountReplaced(s.comments, k, Comment(s.comments[k].id, body));
      }
    case OtherDeletes(k) =>
      if k < |s.comments| {
        CountRemoved(s.comments, k);
      }
  }

  /** Safety over whole runs: whatever succeeds, fails or is done by others, there is never a second marked comment. */
  lemma {:induction false} AtMostOneMarked(s: State, events: seq<Event>)
    requires Plausible(s, events) && CountMarked(s.comments) <= 1
    ensures CountMarked(Run(s, events).comments) <= 1
    decreases |events|
  {
    if events != [] {
      if events[0].Push? {
        PublishStep(s, events[0].body, events[0].access);
      } else {
        OtherStep(s, events[0]);
      }
      AtMostOneMarked(Step(s, events[0]), events[1..]);
    }
  }

  lemma {:induction false} RunAppend(s: State, events: seq<Event>, last: Event)
    ensures Run(s, events + [last]) == Step(Run(s, events), last)
    ensures Plausible(s, events + [last]) ==>
              Plausible(s, events) && Allowed(Run(s, events), last)
              && (last.Push? ==> |Run(s, events).comments| <= REACH)
    decreases |events|
  {
    hide Step, Allowed;
    var all := events + [last];
    if events == [] {
      assert all[1..] == [];
    } else {
      assert all[1..] == events[1..] + [last] && all[0] == events[0];
      RunAppend(Step(s, events[0]), events[1..], last);
    }
  }

  /** After a successful push: exactly one marked comment, with the new body, or none when nothing migrates. */
  lemma LatestPushWins(s: State, events: seq<Event>, body: Option<string>, access: Access)
    requires CountMarked(s.comments) <= 1 && access.mayRead && access.mayWrite
    requires Plausible(s, events + [Push(body, access)])
    ensures var after := Run(s, events + [Push(body, access)]).comments;
            match body
            case None => forall c <- after :: !Marked(c)
            case Some(b) => CountMarked(after) == 1 && exists c <- after :: c.body == b && Marked(c)
  {
    var last := Push(body, access);
    RunAppend(s, events, last);
    AtMostOneMarked(s, events);
    var before := Run(s, events);
    PublishStep(before, body, access);
    var after := Step(before, last).comments;
    CountIsZeroIff(after);
    if body.Some? {
      var k := FirstMarked(before.comments);
      var c := Comment(if k < |before.comments| then before.comments[k].id else before.nextId, body.value);
      assert after[if k < |before.comments| then k else |after| - 1] == c;
      assert c in after && Marked(c);
    }
  }

  /** Where the only marked comment is. */
  ghost predicate OnlyMarkedAt(comments: seq<Comment>, k: nat) {
    k < |comments| && Marked(comments[k]) && CountMarked(comments) == 1
  }

  lemma OnlyMarkedIsFirst(comments: seq<Comment>, k: nat)
    requires OnlyMarkedAt(comments, k)
    ensures FirstMarked(comments) == k
  {
    CountAround(comments, k);
    CountIsZeroIff(comments[..k]);
    forall i | 0 <= i < k ensures !Marked(comments[i]) {
      assert comments[i] == comments[..k][i];
    }
  }

  /**
   Beyond the search's reach the promise fails: with one marked comment at position k, a successful push leaves
   exactly one marked comment iff k is below 2000; otherwise it posts a second.
   */
  lemma SecondCommentIffOutOfReach(s: State, body: string, k: nat)
    requires OnlyMarkedAt(s.comments, k) && Contains(body, COMMENT_MARKER)
    ensures CountMarked(Published(s, Some(body), Access(true, true)).comments) == if k < 2000 then 1 else 2
  {
    OnlyMarkedIsFirst(s.comments, k);
    if k < REACH {
      PublishStep(s, Some(body), Access(true, true));
    } else {
      CountSplit(s.comments, [Comment(s.nextId, body)]);
    }
  }

  /** A push without migrations removes the comment iff it is below 2000; otherwise the stale verdict stays as it is. */
  lemma StaleCommentIffOutOfReach(s: State, k: nat)
    requires OnlyMarkedAt(s.comments, k)
    ensures var after := Published(s, None, Access(true, true));
            if k < 2000 then CountMarked(after.comments) == 0 && after.comments == Without(s.comments, k)
            else after == s
  {
    OnlyMarkedIsFirst(s.comments, k);
    if k < REACH {
      PublishStep(s, None, Access(true, true));
    }
  }

  function Chatter(n: nat): (comments: seq<Comment>)
    ensures |comments| == n
  {
    seq(n, i requires 0 <= i < n => Comment(i, ""))
  }

  /** The report behind `n` other comments. */
  function Behind(n: nat): State {
    State(Chatter(n) + [Comment(n, COMMENT_MARKER)], n + 1)
  }

  lemma BehindIsMarkedLast(n: nat)
    ensures Numbered(Behind(n).comments, Behind(n).nextId) && OnlyMarkedAt(Behind(n).comments, n)
  {
    StartingWithMarkerContainsIt(COMMENT_MARKER);
    NoneMarked(Chatter(n));
    CountSplit(Chatter(n), [Comment(n, COMMENT_MARKER)]);
  }

  /** Two thousand comments before the report put it out of reach. */
  lemma OutOfReachExample()
    ensures var s := Behind(REACH);
            && CountMarked(s.comments) == 1
            && CountMarked(Published(s, Some(COMMENT_MARKER), Access(true, true)).comments) == 2
            && Published(s, None, Access(true, true)) == s
  {
    hide Behind, Published, Marked, CountMarked;
    BehindIsMarkedLast(REACH);
    StartingWithMarkerContainsIt(COMMENT_MARKER);
    SecondCommentIffOutOfReach(Behind(REACH), COMMENT_MARKER, REACH);
    StaleCommentIffOutOfReach(Behind(REACH), REACH);
  }

  /** A rendered body carries the marker, so publishing it is allowed. */
  lemma StartingWithMarkerContainsIt(body: string)
    requires COMMENT_MARKER <= body
    ensures Contains(body, COMMENT_MARKER)
  {
    assert OccursAt(COMMENT_MARKER, body, 0);
  }
}
