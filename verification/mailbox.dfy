/** The scanned folder and the driver of a run: `processAllRead` selects the
    read messages that are neither deleted nor expunged, runs the rule walk of
    `processMessage` on each, and closes the folder with expunge. */
module Mailbox {
  import opened Settings
  import opened Headers
  import opened Filing

  /** The flags of each message in the scanned folder. */
  type FlagTable = map<MsgId, set<Flag>>

  /** Which step of the driver throws a `MessagingException`, if any. */
  datatype DriverFault = NoDriverFault | OpenFault | SearchFault | CloseFault

  predicate Distinct(s: seq<MsgId>)
  {
    forall i, j :: 0 <= i < j < |s| ==> s[i] != s[j]
  }

  /** In a list without repeats, no element occurs before its own position. */
  lemma {:induction false} DistinctNotBefore(s: seq<MsgId>, i: nat)
    requires Distinct(s) && i < |s|
    ensures s[i] !in s[..i]
  {
    forall j | 0 <= j < i
      ensures s[..i][j] != s[i]
    {
      assert s[..i][j] == s[j];
    }
  }

  /** The elements of `s` that `keep` accepts, in their order in `s`. */
  function Filter(s: seq<MsgId>, keep: MsgId -> bool): (r: seq<MsgId>)
    ensures |r| <= |s|
    ensures forall x :: x in r <==> x in s && keep(x)
  {
    if s == [] then []
    else Filter(s[..|s| - 1], keep) + (if keep(s[|s| - 1]) then [s[|s| - 1]] else [])
  }

  /** Filtering keeps the order: it distributes over concatenation. */
  lemma {:induction false} FilterAppend(a: seq<MsgId>, b: seq<MsgId>, keep: MsgId -> bool)
    ensures Filter(a + b, keep) == Filter(a, keep) + Filter(b, keep)
    decreases |b|
  {
    if b == [] {
      assert a + b == a;
    } else {
      var b' := b[..|b| - 1];
      assert (a + b)[..|a + b| - 1] == a + b';
      assert (a + b)[|a + b| - 1] == b[|b| - 1];
      FilterAppend(a, b', keep);
    }
  }

  lemma {:induction false} FilterDistinct(s: seq<MsgId>, keep: MsgId -> bool)
    requires Distinct(s)
    ensures Distinct(Filter(s, keep))
    decreases |s|
  {
    if s != [] {
      var s' := s[..|s| - 1];
      assert Distinct(s');
      FilterDistinct(s', keep);
      assert s[|s| - 1] !in s';
    }
  }

  function IsSeen(fl: FlagTable): MsgId -> bool
  {
    x => x in fl && Seen in fl[x]
  }

  function IsLive(fl: FlagTable): MsgId -> bool
  {
    x => x in fl && Deleted !in fl[x] && Expunged !in fl[x]
  }

  function IsKept(fl: FlagTable): MsgId -> bool
  {
    x => !(x in fl && Deleted in fl[x])
  }

  /** `folder.search(new FlagTerm(SEEN, true))`: the SEEN messages in folder
      order. */
  function SearchSeen(ms: seq<MsgId>, fl: FlagTable): (r: seq<MsgId>)
    ensures |r| <= |ms|
    ensures forall x :: x in r <==> x in ms && x in fl && Seen in fl[x]
  {
    Filter(ms, IsSeen(fl))
  }

  /** The messages handed to `processMessage`: found by the search and then
      neither DELETED nor expunged. */
  function Candidates(ms: seq<MsgId>, fl: FlagTable): (c: seq<MsgId>)
    ensures forall x :: x in c <==>
      x in ms && x in fl && Seen in fl[x] && Deleted !in fl[x] && Expunged !in fl[x]
  {
    Filter(SearchSeen(ms, fl), IsLive(fl))
  }

  /** Candidates come in folder order. */
  lemma {:induction false} CandidatesAppend(a: seq<MsgId>, b: seq<MsgId>, fl: FlagTable)
    ensures Candidates(a + b, fl) == Candidates(a, fl) + Candidates(b, fl)
  {
    FilterAppend(a, b, IsSeen(fl));
    FilterAppend(SearchSeen(a, fl), SearchSeen(b, fl), IsLive(fl));
  }

  /** `close(true)`: the folder loses exactly its DELETED messages and keeps
      the others in order. */
  function Expunge(ms: seq<MsgId>, fl: FlagTable): (r: seq<MsgId>)
    ensures forall x :: x in r <==> x in ms && !(x in fl && Deleted in fl[x])
  {
    Filter(ms, IsKept(fl))
  }

  function HeadersOf(hs: map<MsgId, HeaderMap>, id: MsgId): HeaderMap
  {
    if id in hs then hs[id] else map[]
  }

  /** The flags after `\Deleted` has been added to each message of `done`
      that `flagged` picks out. */
  function MarkBy(fl: FlagTable, done: seq<MsgId>, flagged: MsgId -> bool): (r: FlagTable)
    ensures r.Keys == fl.Keys
    ensures forall x :: x in fl ==> r[x] - {Deleted} == fl[x] - {Deleted}
    ensures forall x :: x in fl ==> (Deleted in r[x] <==> Deleted in fl[x] || (x in done && flagged(x)))
  {
    map x | x in fl :: if x in done && flagged(x) then fl[x] + {Deleted} else fl[x]
  }

  /** Which messages the rule walk flags for deletion. */
  function Flagger(hs: map<MsgId, HeaderMap>, rules: seq<Rule>, env: Env, names: set<string>): MsgId -> bool
  {
    (x: MsgId) => AnyFlagged(rules, HeadersOf(hs, x), x, env, names)
  }

  /** The flags after the rule walk has run on each message of `done`. */
  function MarkAll(fl: FlagTable, done: seq<MsgId>, hs: map<MsgId, HeaderMap>,
                   rules: seq<Rule>, env: Env, names: set<string>): (r: FlagTable)
    ensures r.Keys == fl.Keys
    ensures forall x :: x in fl ==> r[x] - {Deleted} == fl[x] - {Deleted}
    ensures forall x :: x in fl ==>
      (Deleted in r[x] <==> Deleted in fl[x] || (x in done && AnyFlagged(rules, HeadersOf(hs, x), x, env, names)))
  {
    MarkBy(fl, done, Flagger(hs, rules, env, names))
  }

  /** The destination folders after the rule walk has run on each message of
      `done`, in that order. */
  function FileAll(f: Folders, done: seq<MsgId>, hs: map<MsgId, HeaderMap>,
                   rules: seq<Rule>, env: Env, names: set<string>): (r: Folders)
    ensures r.Keys == f.Keys
  {
    if done == [] then f
    else
      var m := done[|done| - 1];
      AddCopies(FileAll(f, done[..|done| - 1], hs, rules, env, names), m,
                Destinations(rules, HeadersOf(hs, m), m, env, names))
  }

  lemma {:induction false} MarkBySnoc(fl: FlagTable, done: seq<MsgId>, m: MsgId, flagged: MsgId -> bool)
    requires m in fl && m !in done
    ensures MarkBy(fl, done + [m], flagged)
         == if flagged(m) then MarkBy(fl, done, flagged)[m := fl[m] + {Deleted}] else MarkBy(fl, done, flagged)
  {
    var a := MarkBy(fl, done + [m], flagged);
    var prev := MarkBy(fl, done, flagged);
    var b := if flagged(m) then prev[m := fl[m] + {Deleted}] else prev;
    forall x | x in fl
      ensures a[x] == b[x]
    {
      if x != m {
        assert (x in done + [m]) == (x in done);
      }
    }
    assert a.Keys == b.Keys;
  }

  lemma {:induction false} MarkAllSnoc(fl: FlagTable, done: seq<MsgId>, m: MsgId, hs: map<MsgId, HeaderMap>,
                    rules: seq<Rule>, env: Env, names: set<string>)
    requires m in fl && m !in done
    ensures MarkAll(fl, done + [m], hs, rules, env, names)
         == if AnyFlagged(rules, HeadersOf(hs, m), m, env, names)
            then MarkAll(fl, done, hs, rules, env, names)[m := fl[m] + {Deleted}]
            else MarkAll(fl, done, hs, rules, env, names)
  {
    MarkBySnoc(fl, done, m, Flagger(hs, rules, env, names));
  }

  /** Filtering a prefix one element longer adds that element or nothing. */
  lemma {:induction false} FilterStep(s: seq<MsgId>, i: nat, keep: MsgId -> bool)
    requires i < |s|
    ensures Filter(s[..i + 1], keep) == Filter(s[..i], keep) + (if keep(s[i]) then [s[i]] else [])
  {
    assert s[..i + 1][..i] == s[..i];
  }

  /** A message the loop has not reached yet keeps the flags the search saw. */
  lemma {:induction false} NotYetReached(fl0: FlagTable, read: seq<MsgId>, i: nat, hs: map<MsgId, HeaderMap>,
                      rules: seq<Rule>, env: Env, names: set<string>)
    requires Distinct(read) && i < |read| && read[i] in fl0
    ensures MarkAll(fl0, Filter(read[..i], IsLive(fl0)), hs, rules, env, names)[read[i]] == fl0[read[i]]
  {
    DistinctNotBefore(read, i);
  }

  /** One turn of the loop in `processAllRead`, for the flags: message
      `read[i]` is marked if it is live and some rule flagged it. */
  lemma {:induction false} RunStepFlags(fl0: FlagTable, read: seq<MsgId>, i: nat, hs: map<MsgId, HeaderMap>,
                     rules: seq<Rule>, env: Env, names: set<string>, fl: FlagTable, fl': FlagTable)
    requires Distinct(read) && i < |read| && read[i] in fl0
    requires fl == MarkAll(fl0, Filter(read[..i], IsLive(fl0)), hs, rules, env, names)
    requires IsLive(fl0)(read[i]) ==>
      fl' == (if AnyFlagged(rules, HeadersOf(hs, read[i]), read[i], env, names)
              then fl[read[i] := fl[read[i]] + {Deleted}] else fl)
    requires !IsLive(fl0)(read[i]) ==> fl' == fl
    ensures fl' == MarkAll(fl0, Filter(read[..i + 1], IsLive(fl0)), hs, rules, env, names)
  {
    var m := read[i];
    var done := Filter(read[..i], IsLive(fl0));
    FilterStep(read, i, IsLive(fl0));
    if IsLive(fl0)(m) {
      DistinctNotBefore(read, i);
      NotYetReached(fl0, read, i, hs, rules, env, names);
      MarkAllSnoc(fl0, done, m, hs, rules, env, names);
      assert Filter(read[..i + 1], IsLive(fl0)) == done + [m];
    } else {
      assert Filter(read[..i + 1], IsLive(fl0)) == done;
    }
  }

  /** One turn of the loop in `processAllRead`, for the folders: the copies
      of message `read[i]` follow those of the messages before it. */
  lemma {:induction false} RunStepFolders(fl0: FlagTable, f0: Folders, read: seq<MsgId>, i: nat, hs: map<MsgId, HeaderMap>,
                       rules: seq<Rule>, env: Env, names: set<string>, f: Folders, f': Folders)
    requires i < |read|
    requires f == FileAll(f0, Filter(read[..i], IsLive(fl0)), hs, rules, env, names)
    requires IsLive(fl0)(read[i]) ==>
      f' == AddCopies(f, read[i], Destinations(rules, HeadersOf(hs, read[i]), read[i], env, names))
    requires !IsLive(fl0)(read[i]) ==> f' == f
    ensures f' == FileAll(f0, Filter(read[..i + 1], IsLive(fl0)), hs, rules, env, names)
  {
    var done := Filter(read[..i], IsLive(fl0));
    FilterStep(read, i, IsLive(fl0));
    if IsLive(fl0)(read[i]) {
      var done' := done + [read[i]];
      assert Filter(read[..i + 1], IsLive(fl0)) == done';
      assert done'[..|done'| - 1] == done && done'[|done'| - 1] == read[i];
      assert FileAll(f0, done', hs, rules, env, names)
          == AddCopies(f, read[i], Destinations(rules, HeadersOf(hs, read[i]), read[i], env, names));
    } else {
      assert Filter(read[..i + 1], IsLive(fl0)) == done;
    }
  }

  /** Folders only grow, and only by copies of messages in `done`. */
  lemma {:induction false} FileAllGrows(f: Folders, done: seq<MsgId>, hs: map<MsgId, HeaderMap>,
                                        rules: seq<Rule>, env: Env, names: set<string>, name: string)
    requires name in f
    ensures var r := FileAll(f, done, hs, rules, env, names);
      f[name] <= r[name] && forall j :: |f[name]| <= j < |r[name]| ==> r[name][j] in done
    decreases |done|
  {
    if done != [] {
      var done', m := done[..|done| - 1], done[|done| - 1];
      FileAllGrows(f, done', hs, rules, env, names, name);
      var prev := FileAll(f, done', hs, rules, env, names);
      var ds := Destinations(rules, HeadersOf(hs, m), m, env, names);
      AddCopiesAt(prev, m, ds, name);
      var r := FileAll(f, done, hs, rules, env, names);
      assert r[name] == prev[name] + seq(Count(ds, name), _ => m);
      forall j | |f[name]| <= j < |r[name]|
        ensures r[name][j] in done
      {
        if j < |prev[name]| {
          assert r[name][j] == prev[name][j];
          assert prev[name][j] in done';
        } else {
          assert r[name][j] == m;
        }
      }
    }
  }

  /** The state after a complete run, message by message: a message the run
      did not select keeps its flags and receives no copy; a message stays in
      the folder iff it was not DELETED before and no rule flagged it. */
  lemma {:induction false} RunOutcome(ms: seq<MsgId>, fl: FlagTable, f: Folders, hs: map<MsgId, HeaderMap>,
                   rules: seq<Rule>, env: Env, x: MsgId)
    requires x in ms && x in fl
    ensures var c := Candidates(ms, fl);
      var fl' := MarkAll(fl, c, hs, rules, env, f.Keys);
      var f' := FileAll(f, c, hs, rules, env, f.Keys);
      && (x !in c ==> fl'[x] == fl[x])
      && (x !in c ==> forall n, j :: n in f && |f[n]| <= j < |f'[n]| ==> f'[n][j] != x)
      && (x in Expunge(ms, fl') <==>
            Deleted !in fl[x] && !(x in c && AnyFlagged(rules, HeadersOf(hs, x), x, env, f.Keys)))
  {
    var c := Candidates(ms, fl);
    var f' := FileAll(f, c, hs, rules, env, f.Keys);
    forall n, j | n in f && |f[n]| <= j < |f'[n]|
      ensures f'[n][j] in c
    {
      FileAllGrows(f, c, hs, rules, env, f.Keys, n);
    }
  }

  /** The scanned folder, open or closed, together with the other folders of
      the store that rules copy into. */
  class Mailbox {
    var messages: seq<MsgId>
    var flags: FlagTable
    const headers: map<MsgId, HeaderMap>
    var folders: Folders
    var isOpen: bool

    ghost predicate Valid()
      reads this
    {
      Distinct(messages) && forall x :: x in messages ==> x in flags
    }

    constructor (messages: seq<MsgId>, flags: FlagTable, headers: map<MsgId, HeaderMap>, folders: Folders)
      requires Distinct(messages) && forall x :: x in messages ==> x in flags
      ensures Valid() && !isOpen
      ensures this.messages == messages && this.flags == flags
      ensures this.headers == headers && this.folders == folders
    {
      this.messages := messages;
      this.flags := flags;
      this.headers := headers;
      this.folders := folders;
      this.isOpen := false;
    }

    /** `folder.open(READ_WRITE)`. */
    method Open(fails: bool) returns (ok: bool)
      modifies this`isOpen
      ensures ok == !fails && isOpen == (old(isOpen) || ok)
    {
      ok := !fails;
      if ok {
        isOpen := true;
      }
    }

    /** `folder.close(true)`: expunges the DELETED messages. */
    method Close(fails: bool) returns (ok: bool)
      requires Valid()
      modifies this`isOpen, this`messages
      ensures Valid() && ok == !fails
      ensures ok ==> !isOpen && messages == Expunge(old(messages), flags)
      ensures !ok ==> isOpen == old(isOpen) && messages == old(messages)
    {
      ok := !fails;
      if ok {
        FilterDistinct(messages, IsKept(flags));
        messages := Expunge(messages, flags);
        isOpen := false;
      }
    }

    /** `f.copyMessages([m], target)`; fails when told to or when the target
        is not a folder. */
    method CopyMessage(id: MsgId, dest: string, fails: bool) returns (ok: bool)
      modifies this`folders
      ensures ok == (!fails && dest in old(folders))
      ensures folders == if ok then CopyInto(old(folders), dest, id) else old(folders)
    {
      ok := !fails && dest in folders;
      if ok {
        folders := CopyInto(folders, dest, id);
      }
    }

    /** `m.setFlag(DELETED, true)`. */
    method SetDeleted(id: MsgId, fails: bool) returns (ok: bool)
      requires id in flags
      modifies this`flags
      ensures ok == !fails
      ensures flags == if ok then old(flags)[id := old(flags)[id] + {Deleted}] else old(flags)
    {
      ok := !fails;
      if ok {
        flags := flags[id := flags[id] + {Deleted}];
      }
    }

    /** The body of the rule loop in `processMessage` for one rule: if the
        rule matches, log the message, resolve the destination, copy the
        message there and set DELETED; any `MessagingException` ends this rule
        and nothing else. */
    method ApplyRule(r: Rule, id: MsgId, h: HeaderMap, env: Env)
      requires id in flags
      modifies this`folders, this`flags
      ensures folders == if RuleCopies(r, h, id, env, old(folders).Keys)
                         then CopyInto(old(folders), r.destination, id) else old(folders)
      ensures flags == if RuleFlags(r, h, id, env, old(folders).Keys)
                       then old(flags)[id := old(flags)[id] + {Deleted}] else old(flags)
    {
      var fault := env.fault(id, r.index);
      var matched := HeaderMatch(ReadHeader(h, r.header, fault == HeaderReadFault), r.pattern, env.fullMatch);
      // The two log lines read From and Subject, then `store.getFolder`
      // resolves the destination; either may throw and end this rule.
      if matched && fault != LogReadFault && fault != ResolveFault {
        var copied := CopyMessage(id, r.destination, fault == CopyFault);
        if copied {
          var flagged := SetDeleted(id, fault == FlagFault);
        }
      }
    }

    /** The state of the rule walk after the rules `done`: the copies and the
        DELETED flag those rules produced, on top of `f0` and `fl0`. */
    ghost predicate Walked(f0: Folders, fl0: FlagTable, id: MsgId, done: seq<Rule>, h: HeaderMap, env: Env)
      reads this
      requires id in fl0
    {
      && folders == AddCopies(f0, id, Destinations(done, h, id, env, f0.Keys))
      && flags == if AnyFlagged(done, h, id, env, f0.Keys) then fl0[id := fl0[id] + {Deleted}] else fl0
    }

    /** One turn of the `while` loop in `processMessage`: read rule `idx`
        from the settings and apply it. */
    method WalkRule(settings: Properties, id: MsgId, env: Env, h: HeaderMap, idx: nat,
                    ghost f0: Folders, ghost fl0: FlagTable)
      requires RulesComplete(settings) && 1 <= idx <= RuleCount(settings)
      requires id in fl0 && Walked(f0, fl0, id, Rules(settings)[..idx - 1], h, env)
      modifies this`folders, this`flags
      ensures Walked(f0, fl0, id, Rules(settings)[..idx], h, env)
    {
      var header := settings[HeaderKey(idx)];
      var pattern := settings[PatternKey(idx)];
      var destination := settings[DestinationKey(idx)];
      var r := Rule(idx, header, pattern, destination);
      ghost var rules := Rules(settings);
      RuleWalkStep(settings, idx);
      ghost var before := rules[..idx - 1];
      assert rules[..idx] == before + [r];
      ghost var flags0 := flags;
      ApplyRule(r, id, h, env);
      WalkStepFolders(f0, id, before, r, h, env, f0.Keys, RuleCopies(r, h, id, env, f0.Keys), folders);
      WalkStepFlags(fl0, id, before, r, h, env, f0.Keys, flags0, flags);
    }

    /** `processMessage`: walks rules 1, 2, ... until the first index with no
        `header<N>`; every matching rule copies the message to its destination
        and sets DELETED, and a failure ends only the current rule. */
    method ProcessMessage(settings: Properties, id: MsgId, env: Env)
      requires Valid() && id in flags && RulesComplete(settings)
      modifies this`folders, this`flags
      ensures Valid()
      ensures folders == AddCopies(old(folders), id,
        Destinations(Rules(settings), HeadersOf(headers, id), id, env, old(folders).Keys))
      ensures flags == if AnyFlagged(Rules(settings), HeadersOf(headers, id), id, env, old(folders).Keys)
                       then old(flags)[id := old(flags)[id] + {Deleted}]
                       else old(flags)
    {
      ghost var rules := Rules(settings);
      var h := HeadersOf(headers, id);
      var idx := 1;
      assert rules[..0] == [];
      RuleWalkStep(settings, idx);
      while HeaderKey(idx) in settings
        invariant 1 <= idx <= |rules| + 1
        invariant HeaderKey(idx) in settings <==> idx <= |rules|
        invariant Walked(old(folders), old(flags), id, rules[..idx - 1], h, env)
        decreases |rules| + 1 - idx
      {
        WalkRule(settings, id, env, h, idx, old(folders), old(flags));
        idx := idx + 1;
        RuleWalkStep(settings, idx);
      }
      assert rules[..idx - 1] == rules;
    }

    /** The state of the run after the messages `done`: the flags and the
        folders the rule walk left on each, on top of `fl0` and `f0`. */
    ghost predicate Ran(fl0: FlagTable, f0: Folders, done: seq<MsgId>, rules: seq<Rule>, env: Env)
      reads this
    {
      && flags == MarkAll(fl0, done, headers, rules, env, f0.Keys)
      && folders == FileAll(f0, done, headers, rules, env, f0.Keys)
    }

    /** One turn of the loop in `processAllRead`: a message found by the
        search is processed unless it is DELETED or expunged by now. */
    method RunMessage(settings: Properties, env: Env, read: seq<MsgId>, i: nat,
                      ghost fl0: FlagTable, ghost f0: Folders)
      requires Valid() && RulesComplete(settings)
      requires Distinct(read) && i < |read| && read[i] in fl0 && fl0.Keys == flags.Keys
      requires Ran(fl0, f0, Filter(read[..i], IsLive(fl0)), Rules(settings), env)
      modifies this`folders, this`flags
      ensures Valid()
      ensures Ran(fl0, f0, Filter(read[..i + 1], IsLive(fl0)), Rules(settings), env)
    {
      var m := read[i];
      ghost var rules := Rules(settings);
      NotYetReached(fl0, read, i, headers, rules, env, f0.Keys);
      ghost var fl, f := flags, folders;
      if Deleted !in flags[m] && Expunged !in flags[m] {
        ProcessMessage(settings, m, env);
      }
      RunStepFlags(fl0, read, i, headers, rules, env, f0.Keys, fl, flags);
      RunStepFolders(fl0, f0, read, i, headers, rules, env, f0.Keys, f, folders);
    }

    /** The loop of `processAllRead` over the messages `read` the search
        found, with the folder open. */
    method ProcessEach(settings: Properties, env: Env, read: seq<MsgId>)
      requires Valid() && RulesComplete(settings) && Distinct(read)
      requires forall x :: x in read ==> x in flags
      modifies this`folders, this`flags
      ensures Valid()
      ensures Ran(old(flags), old(folders), Filter(read, IsLive(old(flags))), Rules(settings), env)
    {
      ghost var fl0 := flags;
      ghost var f0 := folders;
      assert read[..0] == [];
      for i := 0 to |read|
        invariant Valid() && flags.Keys == fl0.Keys
        invariant Ran(fl0, f0, Filter(read[..i], IsLive(fl0)), Rules(settings), env)
      {
        RunMessage(settings, env, read, i, fl0, f0);
      }
      assert read[..|read|] == read;
    }

    /** `processAllRead`: opens the folder, searches it for SEEN messages,
        runs the rule walk on each that is neither DELETED nor expunged, and
        closes the folder with expunge. */
    method ProcessAllRead(settings: Properties, env: Env, driver: DriverFault)
      requires Valid() && !isOpen && RulesComplete(settings)
      modifies this`folders, this`flags, this`messages, this`isOpen
      ensures Valid()
      ensures driver == OpenFault ==>
        !isOpen && messages == old(messages) && flags == old(flags) && folders == old(folders)
      ensures driver == SearchFault ==>
        isOpen && messages == old(messages) && flags == old(flags) && folders == old(folders)
      ensures driver == NoDriverFault || driver == CloseFault ==>
        && flags == MarkAll(old(flags), Candidates(old(messages), old(flags)), headers,
                            Rules(settings), env, old(folders).Keys)
        && folders == FileAll(old(folders), Candidates(old(messages), old(flags)), headers,
                              Rules(settings), env, old(folders).Keys)
      ensures driver == NoDriverFault ==> !isOpen && messages == Expunge(old(messages), flags)
      ensures driver == CloseFault ==> isOpen && messages == old(messages)
    {
      var ready := Open(driver == OpenFault);
      if !ready {
        return;
      }
      if driver == SearchFault {
        return;
      }
      var read := SearchSeen(messages, flags);
      FilterDistinct(messages, IsSeen(flags));
      ProcessEach(settings, env, read);
      var closed := Close(driver == CloseFault);
    }
  }
}
