/**
 * The uploads that follow a build: a sequence of HTTP POSTs, each followed by
 * `raise_for_status()`, so the first post the server answers with an error status
 * ends the sequence with an exception and the later posts are never made. The server
 * is a parameter that maps each post to the status code it answers with.
 */
module Upload {

  import opened Utf8
  import Seqs

  /** One `requests.post(url, data=body)`. */
  datatype Post = Post(url: string, body: Bytes)

  /** The statuses for which `raise_for_status()` raises: client and server errors. */
  predicate HttpError(status: int)
  {
    400 <= status < 600
  }

  /** The posts made, in order, when `planned` are posted one after the other with
      `raise_for_status()` after each: all of them up to the first one that fails. */
  function SentUntilError(planned: seq<Post>, respond: Post -> int): (sent: seq<Post>)
    ensures |sent| <= |planned|
    decreases |planned|
  {
    if planned == [] then []
    else if HttpError(respond(planned[0])) then [planned[0]]
    else [planned[0]] + SentUntilError(planned[1..], respond)
  }

  /** Posting `post` and then, unless it failed, the rest. */
  lemma SentStep(post: Post, rest: seq<Post>, respond: Post -> int)
    ensures SentUntilError([post] + rest, respond) ==
            if HttpError(respond(post)) then [post] else [post] + SentUntilError(rest, respond)
  {
    assert ([post] + rest)[1..] == rest;
  }

  /** The posts of an upload function, one `requests.post` and `raise_for_status()`
      after the other: returns the posts made and whether the last one raised. */
  method PostInOrder(planned: seq<Post>, respond: Post -> int) returns (sent: seq<Post>, raised: bool)
    ensures sent == SentUntilError(planned, respond)
    ensures raised <==> Raised(sent, respond)
  {
    sent := [];
    raised := false;
    var i := 0;
    while i < |planned| && !raised
      invariant 0 <= i <= |planned|
      invariant raised <==> Raised(sent, respond)
      invariant SentUntilError(planned, respond) ==
                if raised then sent else sent + SentUntilError(planned[i..], respond)
    {
      var post := planned[i];
      PostStep(planned, i, respond);
      Seqs.Regroup(sent, [post], SentUntilError(planned[i + 1..], respond));
      RaisedByLast(sent, post, respond);
      raised := HttpError(respond(post));
      sent := sent + [post];
      i := i + 1;
    }
    if !raised {
      PostsExhausted(planned, sent, respond);
    }
  }

  /** Posting the rest of the plan from post `i` on. */
  lemma PostStep(planned: seq<Post>, i: nat, respond: Post -> int)
    requires i < |planned|
    ensures SentUntilError(planned[i..], respond) ==
            if HttpError(respond(planned[i])) then [planned[i]]
            else [planned[i]] + SentUntilError(planned[i + 1..], respond)
  {
    assert planned[i..] == [planned[i]] + planned[i + 1..];
    SentStep(planned[i], planned[i + 1..], respond);
  }

  /** Whether the uploads raise is decided by the last post made. */
  lemma RaisedByLast(sent: seq<Post>, post: Post, respond: Post -> int)
    ensures Raised(sent + [post], respond) <==> HttpError(respond(post))
  {
    assert (sent + [post])[|sent|] == post;
  }

  /** The loop of `PostInOrder` ran out of posts. */
  lemma PostsExhausted(planned: seq<Post>, sent: seq<Post>, respond: Post -> int)
    requires SentUntilError(planned, respond) == sent + SentUntilError(planned[|planned|..], respond)
    ensures SentUntilError(planned, respond) == sent
  {
    assert planned[|planned|..] == [];
    assert sent + [] == sent;
  }

  /** The first planned post is always made, and the second only once the first was
      accepted. */
  lemma SentOrder(first: Post, second: Post, rest: seq<Post>, respond: Post -> int)
    ensures var sent := SentUntilError([first] + ([second] + rest), respond);
            |sent| >= 1 && sent[0] == first &&
            (|sent| >= 2 ==> !HttpError(respond(first)) && sent[1] == second) &&
            |sent| <= 2 + |rest|
  {
    SentStep(first, [second] + rest, respond);
    SentStep(second, rest, respond);
  }

  /** Whether the uploads end in an exception: the last post made was answered with an error. */
  predicate Raised(sent: seq<Post>, respond: Post -> int)
  {
    sent != [] && HttpError(respond(sent[|sent| - 1]))
  }

  /** The posts made are the planned ones, in the planned order, up to some point. */
  lemma {:induction false} SentIsPrefix(planned: seq<Post>, respond: Post -> int)
    ensures SentUntilError(planned, respond) <= planned
    decreases |planned|
  {
    if planned != [] && !HttpError(respond(planned[0])) {
      var rest := planned[1..];
      var sent := SentUntilError(rest, respond);
      SentIsPrefix(rest, respond);
      assert rest == sent + rest[|sent|..];
      Seqs.Regroup([planned[0]], sent, rest[|sent|..]);
      assert planned == [planned[0]] + rest;
    }
  }

  /** Every post but the last one made was accepted, and the posts stop short of the
      plan only when the last one made failed. */
  lemma {:induction false} SentUntilErrorStopsAtFailure(planned: seq<Post>, respond: Post -> int)
    ensures var sent := SentUntilError(planned, respond);
            (forall k :: 0 <= k < |sent| - 1 ==> !HttpError(respond(sent[k]))) &&
            (|sent| < |planned| ==> Raised(sent, respond))
    decreases |planned|
  {
    if planned != [] && !HttpError(respond(planned[0])) {
      SentUntilErrorStopsAtFailure(planned[1..], respond);
      var rest := SentUntilError(planned[1..], respond);
      assert forall k :: 1 <= k < |rest| + 1 ==> ([planned[0]] + rest)[k] == rest[k - 1];
    }
  }

  /** The uploads raise exactly when some planned post would be refused. */
  lemma {:induction false} RaisedIffSomeRefused(planned: seq<Post>, respond: Post -> int)
    ensures Raised(SentUntilError(planned, respond), respond) <==>
            exists k :: 0 <= k < |planned| && HttpError(respond(planned[k]))
    decreases |planned|
  {
    if planned != [] && !HttpError(respond(planned[0])) {
      var rest := planned[1..];
      RaisedIffSomeRefused(rest, respond);
      RaisedAfterAccepted(planned, respond);
      RefusedAfterAccepted(planned, respond);
    }
  }

  /** After an accepted first post, the uploads raise exactly when the rest of them do. */
  lemma RaisedAfterAccepted(planned: seq<Post>, respond: Post -> int)
    requires planned != [] && !HttpError(respond(planned[0]))
    ensures Raised(SentUntilError(planned, respond), respond) <==>
            Raised(SentUntilError(planned[1..], respond), respond)
  {
    var first, rest := planned[0], planned[1..];
    var sent := SentUntilError(rest, respond);
    assert SentUntilError(planned, respond) == [first] + sent;
    if sent != [] {
      assert ([first] + sent)[|sent|] == sent[|sent| - 1];
    }
  }

  /** After an accepted first post, some post is refused exactly when one of the rest is. */
  lemma RefusedAfterAccepted(planned: seq<Post>, respond: Post -> int)
    requires planned != [] && !HttpError(respond(planned[0]))
    ensures (exists k :: 0 <= k < |planned| && HttpError(respond(planned[k]))) <==>
            (exists k :: 0 <= k < |planned[1..]| && HttpError(respond(planned[1..][k])))
  {
    var rest := planned[1..];
    if k :| 0 <= k < |planned| && HttpError(respond(planned[k])) {
      assert HttpError(respond(rest[k - 1]));
    }
    if k :| 0 <= k < |rest| && HttpError(respond(rest[k])) {
      assert HttpError(respond(planned[k + 1]));
    }
  }

  /** When nothing raises, every planned post has been made. */
  lemma {:induction false} AllSentUnlessRaised(planned: seq<Post>, respond: Post -> int)
    ensures !Raised(SentUntilError(planned, respond), respond) ==> SentUntilError(planned, respond) == planned
    decreases |planned|
  {
    if planned != [] && !HttpError(respond(planned[0])) {
      var rest := planned[1..];
      AllSentUnlessRaised(rest, respond);
      var sent := SentUntilError(rest, respond);
      assert sent != [] ==> ([planned[0]] + sent)[|sent|] == sent[|sent| - 1];
      assert planned == [planned[0]] + rest;
    }
  }
}
