/** The language server's Razor listener initializer. Dynamic-file notifications that arrive
    before the Razor extension initializes the listener are buffered as a set of project ids;
    the first `Initialize` creates the listener, records the client and forwards each
    buffered id once; later notifications are forwarded at once, and later `Initialize` calls
    do nothing. The listener itself is modelled by the sequence of ids forwarded to it. */
module RazorWorkspaceListenerInitializer {
  import opened Common

  /** A call made on the initializer: `Initialize(client)` or `NotifyDynamicFile(projectId)`. */
  datatype Event = InitializeEvent(client: nat) | NotifyEvent(projectId: nat)

  /** The position of the first `Initialize` call in a run, or the run's length if none. */
  function FirstInitialize(run: seq<Event>): (r: nat)
    ensures r <= |run|
    ensures r < |run| ==> run[r].InitializeEvent?
    ensures forall j :: 0 <= j < r ==> run[j].NotifyEvent?
  {
    if run == [] then 0
    else
      var k := FirstInitialize(run[..|run| - 1]);
      if k < |run| - 1 then k
      else if run[|run| - 1].InitializeEvent? then |run| - 1
      else |run|
  }

  /** The project ids of the notifications in `run`, in order. */
  function NotifiedIds(run: seq<Event>): (r: seq<nat>)
    ensures |r| <= |run|
  {
    if run == [] then []
    else
      var last := run[|run| - 1];
      NotifiedIds(run[..|run| - 1]) + (if last.NotifyEvent? then [last.projectId] else [])
  }

  /** One more call moves the first `Initialize` only when there was none before. */
  lemma FirstInitializeSnoc(run: seq<Event>, e: Event)
    ensures var k := FirstInitialize(run);
            FirstInitialize(run + [e]) == if k < |run| then k else if e.InitializeEvent? then |run| else |run| + 1
  {
    assert (run + [e])[..|run|] == run;
  }

  lemma NotifiedIdsSnoc(run: seq<Event>, e: Event)
    ensures NotifiedIds(run + [e]) == NotifiedIds(run) + (if e.NotifyEvent? then [e.projectId] else [])
  {
    assert (run + [e])[..|run|] == run;
  }

  function Elements(s: seq<nat>): set<nat>
  {
    set x | x in s
  }

  lemma ElementsSnoc(s: seq<nat>, x: nat)
    ensures Elements(s + [x]) == Elements(s) + {x}
  {
  }

  /** The initializer's state as a function of the calls made so far: before the first
      `Initialize` the set holds exactly the notified ids and nothing was forwarded;
      afterwards the set is empty, the first client is kept, and the listener has received
      each id buffered before it once (`flushed`, in the set's order), followed by every
      later notification in order. */
  ghost predicate Determined(history: seq<Event>, flushed: seq<nat>, listenerCreated: bool, client: Option<nat>,
                             pending: set<nat>, forwarded: seq<nat>)
  {
    var k := FirstInitialize(history);
    (listenerCreated <==> k < |history|)
    && if k < |history| then
         InitializedBy(history[..k], history[k], history[k + 1..], flushed, client, pending, forwarded)
       else
         && client == None
         && forwarded == [] && flushed == []
         && pending == Elements(NotifiedIds(history))
  }

  /** The state after a first `Initialize` event `first`, with the calls `before` it and
      `after` it. */
  ghost predicate InitializedBy(before: seq<Event>, first: Event, after: seq<Event>, flushed: seq<nat>, client: Option<nat>,
                                pending: set<nat>, forwarded: seq<nat>)
    requires first.InitializeEvent?
  {
    && client == Some(first.client)
    && pending == {}
    && NoDuplicates(flushed)
    && Elements(flushed) == Elements(NotifiedIds(before))
    && forwarded == flushed + NotifiedIds(after)
  }

  /** A notification before initialization is buffered; after it, it is forwarded. */
  lemma NotifyKeepsDetermined(history: seq<Event>, flushed: seq<nat>, listenerCreated: bool, client: Option<nat>,
                              pending: set<nat>, forwarded: seq<nat>, projectId: nat)
    requires Determined(history, flushed, listenerCreated, client, pending, forwarded)
    ensures Determined(history + [NotifyEvent(projectId)], flushed, listenerCreated, client,
                       if listenerCreated then pending else pending + {projectId},
                       if listenerCreated then forwarded + [projectId] else forwarded)
  {
    if listenerCreated {
      NotifyAfterInitialize(history, flushed, client, pending, forwarded, projectId);
    } else {
      var e := NotifyEvent(projectId);
      FirstInitializeSnoc(history, e);
      NotifiedIdsSnoc(history, e);
      ElementsSnoc(NotifiedIds(history), projectId);
    }
  }

  lemma NotifyAfterInitialize(history: seq<Event>, flushed: seq<nat>, client: Option<nat>,
                              pending: set<nat>, forwarded: seq<nat>, projectId: nat)
    requires Determined(history, flushed, true, client, pending, forwarded)
    ensures Determined(history + [NotifyEvent(projectId)], flushed, true, client, pending, forwarded + [projectId])
  {
    var e := NotifyEvent(projectId);
    var h := history + [e];
    var k := FirstInitialize(history);
    FirstInitializeSnoc(history, e);
    assert h[..k] == history[..k];
    assert h[k] == history[k];
    assert h[k + 1..] == history[k + 1..] + [e];
    NotifiedIdsSnoc(history[k + 1..], e);
    assert InitializedBy(history[..k], history[k], history[k + 1..] + [e], flushed, client, pending, forwarded + [projectId]);
  }

  /** A later `Initialize` changes nothing but the history. */
  lemma ReinitializeKeepsDetermined(history: seq<Event>, flushed: seq<nat>, client: Option<nat>,
                                    pending: set<nat>, forwarded: seq<nat>, newClient: nat)
    requires Determined(history, flushed, true, client, pending, forwarded)
    ensures Determined(history + [InitializeEvent(newClient)], flushed, true, client, pending, forwarded)
  {
    var e := InitializeEvent(newClient);
    var h := history + [e];
    var k := FirstInitialize(history);
    FirstInitializeSnoc(history, e);
    assert h[..k] == history[..k];
    assert h[k + 1..] == history[k + 1..] + [e];
    NotifiedIdsSnoc(history[k + 1..], e);
  }

  /** Before the first `Initialize` no client is known and nothing has been forwarded. */
  lemma BeforeInitializeNothingIsForwarded(history: seq<Event>, flushed: seq<nat>, client: Option<nat>,
                                           pending: set<nat>, forwarded: seq<nat>)
    requires Determined(history, flushed, false, client, pending, forwarded)
    ensures FirstInitialize(history) == |history|
    ensures client == None && forwarded == [] && flushed == []
    ensures Determined(history, [], false, None, pending, [])
  {
  }

  /** The first `Initialize` takes the client, empties the set and forwards its ids. */
  lemma FirstInitializeDetermines(history: seq<Event>, pending: set<nat>, newClient: nat, flushed: seq<nat>)
    requires Determined(history, [], false, None, pending, [])
    requires NoDuplicates(flushed) && Elements(flushed) == pending
    ensures Determined(history + [InitializeEvent(newClient)], flushed, true, Some(newClient), {}, flushed)
  {
    var e := InitializeEvent(newClient);
    var h := history + [e];
    FirstInitializeSnoc(history, e);
    assert h[..|history|] == history;
    assert h[|history| + 1..] == [];
  }

  class Initializer {
    /** Whether `_razorWorkspaceListener` has been created. */
    var listenerCreated: bool
    var clientLanguageServerManager: Option<nat>
    var projectIdWithDynamicFiles: set<nat>
    /** The ids passed to the listener's `NotifyDynamicFile`, in call order. */
    var forwarded: seq<nat>
    /** The calls made so far, and the ids the first `Initialize` flushed, in flush order. */
    ghost var history: seq<Event>
    ghost var flushed: seq<nat>

    /** The state is determined by the calls made so far (see `Determined`). */
    ghost predicate Valid()
      reads this
    {
      Determined(history, flushed, listenerCreated, clientLanguageServerManager, projectIdWithDynamicFiles, forwarded)
    }

    constructor()
      ensures Valid()
      ensures history == [] && !listenerCreated && forwarded == []
    {
      listenerCreated := false;
      clientLanguageServerManager := None;
      projectIdWithDynamicFiles := {};
      forwarded := [];
      history := [];
      flushed := [];
    }

    /** The first call creates the listener, takes the client and forwards every buffered
        project id exactly once, leaving the buffer empty; any later call changes nothing. */
    method Initialize(client: nat)
      requires Valid()
      modifies this
      ensures Valid()
      ensures history == old(history) + [InitializeEvent(client)]
      ensures listenerCreated
      ensures old(listenerCreated) ==>
                forwarded == old(forwarded) && clientLanguageServerManager == old(clientLanguageServerManager)
                && projectIdWithDynamicFiles == old(projectIdWithDynamicFiles)
      ensures !old(listenerCreated) ==>
                && clientLanguageServerManager == Some(client)
                && projectIdWithDynamicFiles == {}
                && old(forwarded) == [] && NoDuplicates(forwarded)
                && Elements(forwarded) == old(projectIdWithDynamicFiles)
    {
      if listenerCreated {
        ReinitializeKeepsDetermined(history, flushed, clientLanguageServerManager, projectIdWithDynamicFiles, forwarded, client);
        history := history + [InitializeEvent(client)];
        return;
      }
      CreateListener(client);
    }

    /** The part of `Initialize` that runs once: the listener is created, the client kept,
        and the buffered ids taken out of the set and forwarded. */
    method CreateListener(client: nat)
      requires Valid() && !listenerCreated
      modifies this
      ensures Valid()
      ensures history == old(history) + [InitializeEvent(client)]
      ensures listenerCreated && clientLanguageServerManager == Some(client) && projectIdWithDynamicFiles == {}
      ensures old(forwarded) == [] && NoDuplicates(forwarded) && Elements(forwarded) == old(projectIdWithDynamicFiles)
    {
      ghost var h := history;
      BeforeInitializeNothingIsForwarded(h, flushed, clientLanguageServerManager, projectIdWithDynamicFiles, forwarded);
      history := history + [InitializeEvent(client)];
      listenerCreated := true;
      clientLanguageServerManager := Some(client);
      var projectsToInitialize := projectIdWithDynamicFiles;
      projectIdWithDynamicFiles := {};

      ForwardEach(projectsToInitialize);
      flushed := forwarded;
      FirstInitializeDetermines(h, projectsToInitialize, client, flushed);
    }

    /** The `foreach` over the buffered ids: each is passed to the listener once, in the
        set's (unspecified) enumeration order. */
    method ForwardEach(projects: set<nat>)
      requires forwarded == []
      modifies this
      ensures NoDuplicates(forwarded) && Elements(forwarded) == projects
      ensures listenerCreated == old(listenerCreated) && history == old(history)
      ensures clientLanguageServerManager == old(clientLanguageServerManager)
      ensures projectIdWithDynamicFiles == old(projectIdWithDynamicFiles) && flushed == old(flushed)
    {
      var rest := projects;
      while rest != {}
        invariant NoDuplicates(forwarded)
        invariant Elements(forwarded) !! rest
        invariant Elements(forwarded) + rest == projects
        invariant listenerCreated == old(listenerCreated) && history == old(history)
        invariant clientLanguageServerManager == old(clientLanguageServerManager)
        invariant projectIdWithDynamicFiles == old(projectIdWithDynamicFiles) && flushed == old(flushed)
        decreases rest
      {
        var projectId :| projectId in rest;
        forwarded := forwarded + [projectId];
        rest := rest - {projectId};
      }
    }

    /** Before initialization the id is only buffered; afterwards it is forwarded at once,
        duplicates included. */
    method NotifyDynamicFile(projectId: nat)
      requires Valid()
      modifies this
      ensures Valid()
      ensures history == old(history) + [NotifyEvent(projectId)]
      ensures listenerCreated == old(listenerCreated)
      ensures clientLanguageServerManager == old(clientLanguageServerManager)
      ensures !listenerCreated ==>
                forwarded == old(forwarded) && projectIdWithDynamicFiles == old(projectIdWithDynamicFiles) + {projectId}
      ensures listenerCreated ==>
                forwarded == old(forwarded) + [projectId] && projectIdWithDynamicFiles == old(projectIdWithDynamicFiles)
    {
      NotifyKeepsDetermined(history, flushed, listenerCreated, clientLanguageServerManager,
                            projectIdWithDynamicFiles, forwarded, projectId);
      history := history + [NotifyEvent(projectId)];
      if !listenerCreated {
        projectIdWithDynamicFiles := projectIdWithDynamicFiles + {projectId};
        return;
      }
      forwarded := forwarded + [projectId];
    }
  }

  /** A sequence without duplicates holds each of its elements once. */
  lemma {:induction false} DistinctSequenceCountsOnce(s: seq<nat>)
    requires NoDuplicates(s)
    ensures multiset(s) == multiset(Elements(s))
  {
    if s != [] {
      var init := s[..|s| - 1];
      var x := s[|s| - 1];
      assert s == init + [x];
      DistinctSequenceCountsOnce(init);
      assert x !in init;
      assert Elements(s) == Elements(init) + {x};
    }
  }

  /** Over a whole run, the listener receives the distinct ids notified before the first
      `Initialize`, once each, plus every notification made after it. */
  lemma ForwardedOverARun(initializer: Initializer)
    requires initializer.Valid() && initializer.listenerCreated
    ensures var h := initializer.history; var k := FirstInitialize(h);
            multiset(initializer.forwarded)
            == multiset(Elements(NotifiedIds(h[..k]))) + multiset(NotifiedIds(h[k + 1..]))
  {
    DistinctSequenceCountsOnce(initializer.flushed);
  }
}
