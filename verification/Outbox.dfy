/**
 The opt-in contribution client: an offline outbox with a bounded size, saved to a file, on a network
 that may refuse anything, a disk that may refuse a write, and a host that may die at any post or save.
 */
module Outbox {
  type Payload = string

  const MAX_OUTBOX := 200

  /** What becomes of one post or save: a refused save raises. A process that dies loses everything it has not saved. */
  datatype Luck = Fine | Refused | Died

  datatype Config = Config(consent: bool, registered: bool, outbox: seq<Payload>)

  datatype Kind = Register | Direct | FromQueue

  /** Something posted to the endpoint, with the consent in force at that moment and the endpoint's answer. */
  datatype Post = Post(kind: Kind, payload: Payload, consented: bool, accepted: bool) | Restarted

  /** How a queued payload left the outbox. */
  datatype Fate = Delivered | Evicted

  datatype Outcome = Sent(flushed: nat) | Queued(pending: nat) | NotEnabled | ConsentStored | Raised | Crashed

  function CountFate(fates: seq<Fate>, f: Fate): nat {
    if fates == [] then 0 else CountFate(fates[..|fates| - 1], f) + if fates[|fates| - 1] == f then 1 else 0
  }

  lemma {:induction false} FatesAddUp(fates: seq<Fate>)
    ensures CountFate(fates, Delivered) + CountFate(fates, Evicted) == |fates|
  {
    if fates != [] {
      FatesAddUp(fates[..|fates| - 1]);
    }
  }

  function AllDelivered(n: nat): seq<Fate> {
    seq(n, _ => Delivered)
  }

  lemma OneMoreDelivered(fates: seq<Fate>, n: nat)
    ensures fates + AllDelivered(0) == fates
    ensures fates + AllDelivered(n) + [Delivered] == fates + AllDelivered(n + 1)
  {
  }

  /** The posts of a flush: payloads from the front, all accepted, then the first one that is refused, if any is left. */
  function FlushPosts(outbox: seq<Payload>, sent: nat): seq<Post>
    requires sent <= |outbox|
  {
    Accepted(outbox[..sent]) + if sent < |outbox| then [Post(FromQueue, outbox[sent], true, false)] else []
  }

  function Accepted(payloads: seq<Payload>): seq<Post> {
    seq(|payloads|, i requires 0 <= i < |payloads| => Post(FromQueue, payloads[i], true, true))
  }

  lemma OneMoreAccepted(log: seq<Post>, outbox: seq<Payload>, sent: nat)
    requires sent < |outbox|
    ensures log + Accepted(outbox[..0]) == log
    ensures log + Accepted(outbox[..sent]) + [Post(FromQueue, outbox[sent], true, true)]
         == log + Accepted(outbox[..sent + 1])
    ensures log + Accepted(outbox[..sent]) + [Post(FromQueue, outbox[sent], true, false)] == log + FlushPosts(outbox, sent)
  {
  }

  lemma AllAccepted(log: seq<Post>, outbox: seq<Payload>)
    ensures log + Accepted(outbox[..|outbox|]) == log + FlushPosts(outbox, |outbox|)
    ensures log + Accepted(outbox[..0]) == log
  {
  }

  /** The payloads the endpoint accepted from the queue since the process last started, in order. */
  function QueueDeliveries(log: seq<Post>): seq<Payload> {
    if log == [] || log[|log| - 1].Restarted? then []
    else
      var e := log[|log| - 1];
      QueueDeliveries(log[..|log| - 1]) + if e.kind == FromQueue && e.accepted then [e.payload] else []
  }

  /** The payloads at positions `from..` of the queue's history that were delivered, in queue order. */
  function DeliveredFrom(queued: seq<Payload>, fates: seq<Fate>, from: nat): seq<Payload>
    requires |fates| <= |queued|
    decreases |fates|
  {
    if |fates| <= from then []
    else
      DeliveredFrom(queued, fates[..|fates| - 1], from)
      + if fates[|fates| - 1] == Delivered then [queued[|fates| - 1]] else []
  }

  lemma LogGrows(log: seq<Post>, e: Post)
    requires e.Post?
    ensures QueueDeliveries(log + [e])
         == QueueDeliveries(log) + if e.kind == FromQueue && e.accepted then [e.payload] else []
  {
    assert (log + [e])[..|log|] == log;
  }

  lemma FatesGrow(queued: seq<Payload>, fates: seq<Fate>, f: Fate, from: nat)
    requires from <= |fates| < |queued|
    ensures DeliveredFrom(queued, fates + [f], from)
         == DeliveredFrom(queued, fates, from) + if f == Delivered then [queued[|fates|]] else []
  {
    assert (fates + [f])[..|fates|] == fates;
  }

  lemma {:induction false} DeliveredFromStable(queued: seq<Payload>, p: Payload, fates: seq<Fate>, from: nat)
    requires |fates| <= |queued|
    ensures DeliveredFrom(queued + [p], fates, from) == DeliveredFrom(queued, fates, from)
    decreases |fates|
  {
    if |fates| > from {
      DeliveredFromStable(queued, p, fates[..|fates| - 1], from);
    }
  }

  class Community {
    var cfg: Config
    var file: Config
    var luck: seq<Luck>
    var log: seq<Post>

    /** Every payload that failed its first send and was put in the queue, oldest first. */
    ghost var queued: seq<Payload>
    /** What became of those that have left the outbox. */
    ghost var fates: seq<Fate>
    /** The saved file holds the payloads from `savedHead` up to `savedTail`. */
    ghost var savedHead: nat
    ghost var savedTail: nat
    /** How many had left when the process started. */
    ghost var startHead: nat

    /** Holds at every moment, in the middle of an operation and after a failed save too. */
    ghost predicate Consistent()
      reads this
    {
      && startHead <= savedHead <= |fates| <= |queued| && savedHead <= savedTail <= |queued|
      && cfg.outbox == queued[|fates|..] && |cfg.outbox| <= MAX_OUTBOX
      && file.outbox == queued[savedHead..savedTail] && |file.outbox| <= MAX_OUTBOX
      && (forall i | 0 <= i < |log| && log[i].Post? :: log[i].consented)
      && QueueDeliveries(log) == DeliveredFrom(queued, fates, startHead)
    }

    /** Everything is saved. */
    ghost predicate Saved()
      reads this
    {
      Consistent() && file == cfg && savedHead == |fates| && savedTail == |queued|
    }

    /** What is saved to the queue stays in its history, delivered, evicted or waiting, and stays saved. */
    twostate predicate Remembers()
      reads this
    {
      && Consistent() && old(log) <= log
      && old(savedTail) <= savedTail && old(savedHead) <= savedHead
      && old(savedTail) <= old(|queued|) && old(queued[..savedTail]) <= queued
    }

    /** The process has started again from the file. */
    twostate predicate Reloaded()
      reads this
    {
      && Saved() && cfg == old(file)
      && savedHead == old(savedHead) && savedTail == old(savedTail)
      && savedTail <= old(|queued|) && queued == old(queued[..savedTail])
      && savedHead <= old(|fates|) && fates == old(fates[..savedHead])
    }

    /** Payloads delivered, evicted and waiting make up everything that was ever queued. */
    lemma QueueIsConserved()
      requires Consistent()
      ensures |queued| == CountFate(fates, Delivered) + CountFate(fates, Evicted) + |cfg.outbox|
    {
      FatesAddUp(fates);
    }

    constructor (luck: seq<Luck>)
      ensures Saved() && cfg == Config(false, false, []) && queued == [] && fates == [] && log == []
    {
      cfg, file := Config(false, false, []), Config(false, false, []);
      this.luck, log := luck, [];
      queued, fates, savedHead, savedTail, startHead := [], [], 0, 0, 0;
    }

    method NextLuck() returns (l: Luck)
      modifies this`luck
    {
      l := Fine;
      if luck != [] {
        l, luck := luck[0], luck[1..];
      }
    }

    /**
     The process starts again from the file. What had been delivered or evicted but not yet saved as such
     waits once more; nothing that was saved is missing.
     */
    method Restart()
      requires Consistent()
      modifies this
      ensures Remembers() && Reloaded() && log == old(log) + [Restarted]
      ensures cfg.outbox == queued[savedHead..]
    {
      cfg := file;
      queued, fates := queued[..savedTail], fates[..savedHead];
      startHead := savedHead;
      log := log + [Restarted];
    }

    /** Write the configuration. Writing may raise, and the process may die first. */
    method Save() returns (l: Luck)
      requires Consistent()
      modifies this
      ensures Remembers()
      ensures l != Died ==> cfg == old(cfg) && queued == old(queued) && fates == old(fates) && log == old(log)
                            && startHead == old(startHead)
      ensures l == Fine ==> Saved()
      ensures l == Refused ==> file == old(file) && savedHead == old(savedHead) && savedTail == old(savedTail)
      ensures l == Died ==> Reloaded() && log == old(log) + [Restarted]
    {
      l := NextLuck();
      if l == Fine {
        file := cfg;
        savedHead, savedTail := |fates|, |queued|;
      } else if l == Died {
        Restart();
      }
    }

    /** Nothing but the outbox and what happens to it has changed, and none of that is saved yet. */
    twostate predicate Unsaved()
      reads this
    {
      file == old(file) && savedHead == old(savedHead) && savedTail == old(savedTail) && startHead == old(startHead)
    }

    /** Post with the user's consent. */
    method Send(kind: Kind, payload: Payload) returns (l: Luck)
      requires Consistent() && cfg.consent && kind != FromQueue
      modifies this
      ensures Remembers() && (l == Died ==> Reloaded())
      ensures l != Died ==> Unsaved() && cfg == old(cfg) && fates == old(fates) && queued == old(queued)
                            && log == old(log) + [Post(kind, payload, true, l == Fine)]
    {
      hide QueueDeliveries, DeliveredFrom;
      l := NextLuck();
      LogGrows(log, Post(kind, payload, cfg.consent, l == Fine));
      log := log + [Post(kind, payload, cfg.consent, l == Fine)];
      if l == Died {
        Restart();
      }
    }

    /** Post the oldest queued payload, and drop it from the outbox if the endpoint takes it. */
    method FlushOne() returns (l: Luck)
      requires Consistent() && cfg.consent && cfg.outbox != []
      modifies this
      ensures Remembers() && (l == Died ==> Reloaded())
      ensures l != Died ==> Unsaved() && queued == old(queued)
                            && log == old(log) + [Post(FromQueue, old(cfg.outbox)[0], true, l == Fine)]
      ensures l == Fine ==> cfg == old(cfg).(outbox := old(cfg.outbox)[1..]) && fates == old(fates) + [Delivered]
      ensures l == Refused ==> cfg == old(cfg) && fates == old(fates)
    {
      hide QueueDeliveries, DeliveredFrom;
      l := NextLuck();
      var post := Post(FromQueue, cfg.outbox[0], cfg.consent, l == Fine);
      LogGrows(log, post);
      log := log + [post];
      if l == Fine {
        FatesGrow(queued, fates, Delivered, startHead);
        cfg := cfg.(outbox := cfg.outbox[1..]);
        fates := fates + [Delivered];
      } else if l == Died {
        Restart();
      }
    }

    /** Deliver queued payloads from the front until one is refused. */
    method Flush() returns (sent: nat, alive: bool)
      requires Consistent() && cfg.consent
      modifies this
      ensures Remembers() && (!alive ==> Reloaded())
      ensures alive ==> Unsaved() && queued == old(queued) && sent <= |old(cfg.outbox)|
                        && cfg == old(cfg).(outbox := old(cfg.outbox)[sent..])
                        && fates == old(fates) + AllDelivered(sent)
                        && log == old(log) + FlushPosts(old(cfg.outbox), sent)
    {
      hide QueueDeliveries, DeliveredFrom, AllDelivered, FlushPosts, Accepted;
      sent, alive := 0, true;
      ghost var waiting := cfg.outbox;
      AllAccepted(log, waiting);
      OneMoreDelivered(fates, 0);
      while cfg.outbox != []
        invariant Consistent() && queued == old(queued) && old(log) <= log && Unsaved()
        invariant sent <= |old(cfg.outbox)| && cfg == old(cfg).(outbox := old(cfg.outbox)[sent..])
        invariant fates == old(fates) + AllDelivered(sent) && log == old(log) + Accepted(waiting[..sent])
        decreases |cfg.outbox|
      {
        OneMoreAccepted(old(log), waiting, sent);
        var l := FlushOne();
        if l == Died {
          assert old(fates) <= old(fates) + AllDelivered(sent);
          return sent, false;
        }
        if l == Refused { return; }
        OneMoreDelivered(old(fates), sent);
        sent := sent + 1;
      }
      AllAccepted(old(log), waiting);
    }

    method FlushAndSave() returns (sent: nat, l: Luck)
      requires Consistent() && cfg.consent
      modifies this
      ensures Remembers()
      ensures l != Died ==> queued == old(queued) && sent <= |old(cfg.outbox)|
                            && cfg == old(cfg).(outbox := old(cfg.outbox)[sent..])
                            && fates == old(fates) + AllDelivered(sent)
                            && log == old(log) + FlushPosts(old(cfg.outbox), sent)
      ensures l == Fine ==> Saved()
      ensures l == Refused ==> Unsaved()
      ensures l == Died ==> Reloaded()
    {
      hide QueueDeliveries, DeliveredFrom, AllDelivered, FlushPosts;
      var alive;
      sent, alive := Flush();
      if !alive { return sent, Died; }
      assert old(fates) <= old(fates) + AllDelivered(sent);
      l := Save();
    }

    /** Append to the outbox, dropping the oldest beyond the bound. */
    method Append(payload: Payload)
      requires Consistent()
      modifies this`cfg, this`queued, this`fates
      ensures Remembers() && Unsaved() && queued == old(queued) + [payload]
      ensures fates == old(fates) + if |old(cfg.outbox)| == MAX_OUTBOX then [Evicted] else []
      ensures cfg == old(cfg).(outbox := queued[|fates|..])
    {
      hide QueueDeliveries, DeliveredFrom;
      var out := cfg.outbox + [payload];
      if |out| > MAX_OUTBOX {
        out := out[|out| - MAX_OUTBOX..];
      }
      DeliveredFromStable(queued, payload, fates, startHead);
      queued := queued + [payload];
      if |cfg.outbox| == MAX_OUTBOX {
        FatesGrow(queued, fates, Evicted, startHead);
        fates := fates + [Evicted];
      }
      cfg := cfg.(outbox := out);
    }

    /** Append and save. If saving raises, the payload waits in memory only; if the process dies, it is gone. */
    method Enqueue(payload: Payload) returns (l: Luck)
      requires Consistent()
      modifies this
      ensures Remembers()
      ensures l != Died ==> queued == old(queued) + [payload] && log == old(log)
                            && fates == old(fates) + (if |old(cfg.outbox)| == MAX_OUTBOX then [Evicted] else [])
                            && cfg == old(cfg).(outbox := queued[|fates|..])
      ensures l == Fine ==> Saved()
      ensures l == Refused ==> Unsaved()
      ensures l == Died ==> Reloaded()
    {
      hide QueueDeliveries, DeliveredFrom;
      Append(payload);
      l := Save();
    }

    /** Upload one reading, or queue it. Reported queued is only what is saved. */
    method Contribute(payload: Payload) returns (r: Outcome)
      requires Consistent()
      modifies this
      ensures Remembers()
      ensures r.NotEnabled? <==> !old(cfg.consent)
      ensures r.NotEnabled? ==> cfg == old(cfg) && log == old(log) && queued == old(queued) && fates == old(fates)
      ensures r.Queued? ==> Saved() && queued == old(queued) + [payload] && r.pending == |cfg.outbox|
      ensures r.Queued? ==> log == old(log) + [Post(Direct, payload, true, false)]
                            && fates == old(fates) + if |old(cfg.outbox)| == MAX_OUTBOX then [Evicted] else []
      ensures r.Sent? ==> Saved() && queued == old(queued) && fates == old(fates) + AllDelivered(r.flushed)
                          && r.flushed <= |old(cfg.outbox)|
                          && cfg == old(cfg).(registered := true, outbox := old(cfg.outbox)[r.flushed..])
                          && log == old(log) + [Post(Direct, payload, true, true)]
                                    + FlushPosts(old(cfg.outbox), r.flushed)
      ensures r.Raised? ==> Unsaved() && queued == old(queued)
                            + if old(log) + [Post(Direct, payload, true, true)] <= log then [] else [payload]
      ensures r.Crashed? ==> Reloaded()
    {
      hide QueueDeliveries, DeliveredFrom, AllDelivered, FlushPosts;
      if !cfg.consent {
        return NotEnabled;
      }
      var l := Send(Direct, payload);
      if l == Died {
        return Crashed;
      }
      ghost var asked := log;
      if l == Fine {
        cfg := cfg.(registered := true);
        var sent;
        sent, l := FlushAndSave();
        return if l == Fine then Sent(sent) else if l == Died then Crashed else Raised;
      }
      assert asked[|old(log)|] == Post(Direct, payload, true, false);
      l := Enqueue(payload);
      return if l == Fine then Queued(|cfg.outbox|) else if l == Died then Crashed else Raised;
    }

    /** Register the install; a successful registration is saved at once. */
    method RegisterInstall() returns (accepted: bool, l: Luck)
      requires Consistent() && cfg.consent
      modifies this
      ensures Remembers() && (l == Died ==> Saved()) && (l == Fine && accepted ==> Saved())
      ensures l != Died ==> queued == old(queued) && fates == old(fates)
                            && log == old(log) + [Post(Register, "", true, accepted)]
                            && cfg == old(cfg).(registered := old(cfg).registered || accepted)
    {
      hide QueueDeliveries, DeliveredFrom;
      l := Send(Register, "");
      accepted := l == Fine;
      if accepted {
        cfg := cfg.(registered := true);
        l := Save();
      } else if l == Refused {
        l := Fine;
      }
    }

    /** Record the choice; on opt-in register and drain the queue. */
    method SetConsent(consent: bool) returns (r: Outcome)
      requires Consistent()
      modifies this
      ensures Remembers()
      ensures r.Crashed? || r.Raised? || (if consent then r.Sent? else r.ConsentStored?)
      ensures r.ConsentStored? ==>
                Saved() && log == old(log) && fates == old(fates) && queued == old(queued)
                && cfg == old(cfg).(consent := false)
      ensures r.Sent? ==>
                Saved() && r.flushed <= |old(cfg.outbox)| && fates == old(fates) + AllDelivered(r.flushed)
                && queued == old(queued)
      ensures r.Sent? ==>
                exists accepted: bool ::
                  && log == old(log) + [Post(Register, "", true, accepted)]
                            + (if accepted then FlushPosts(old(cfg.outbox), r.flushed) else [])
                  && (!accepted ==> r.flushed == 0)
                  && cfg == Config(true, old(cfg).registered || accepted, old(cfg.outbox)[r.flushed..])
      ensures !consent && !r.Crashed? ==> log == old(log) && !cfg.consent
      ensures r.Crashed? ==> Saved()
    {
      hide QueueDeliveries, DeliveredFrom, AllDelivered, FlushPosts;
      OneMoreDelivered(fates, 0);
      cfg := cfg.(consent := consent);
      var l := Save();
      if l == Died { return Crashed; }
      if l == Refused { return Raised; }
      if !consent { return ConsentStored; }
      var accepted;
      accepted, l := RegisterInstall();
      if l == Died { return Crashed; }
      if l == Refused { return Raised; }
      ghost var asked := log;
      assert asked == old(log) + [Post(Register, "", true, accepted)];
      var sent := 0;
      if accepted {
        sent, l := FlushAndSave();
      } else {
        l := Save();
      }
      return if l == Fine then Sent(sent) else if l == Died then Crashed else Raised;
    }
  }
}
