/** What the rule walk of `processMessage` does to one message: which rules
    match, which of them copy the message and set DELETED, and how the copies
    land in the destination folders. The mail store's failures are given as a
    fault plan chosen by the environment, so every statement below holds
    whichever operations fail. */
module Filing {
  import opened Settings
  import opened Headers

  /** Identity of a message in the scanned folder. */
  type MsgId = nat

  /** The message flags the engine looks at. `Expunged` stands for
      `Message.isExpunged()`. */
  datatype Flag = Seen | Deleted | Expunged

  /** Which `MessagingException`, if any, interrupts rule N for a message.
      - HeaderReadFault: `getHeader` for the rule's header throws; `headerMatch`
        swallows it and reports no match.
      - LogReadFault: reading From or Subject for the log lines throws.
      - ResolveFault: `store.getFolder(destination)` throws.
      - CopyFault: `copyMessages` throws.
      - FlagFault: `setFlag(DELETED, true)` throws. */
  datatype Fault = NoFault | HeaderReadFault | LogReadFault | ResolveFault | CopyFault | FlagFault

  /** The environment of a run: the pattern matcher and the fault plan, indexed
      by message and rule number. */
  datatype Env = Env(fullMatch: Matcher, fault: (MsgId, nat) -> Fault)

  /** A folder name to its messages; a copy is recorded by the id of the
      message it was copied from. */
  type Folders = map<string, seq<MsgId>>

  /** Rule `r` matches message `id`. */
  predicate RuleMatches(r: Rule, h: HeaderMap, id: MsgId, env: Env): (b: bool)
    ensures b ==> r.header in h && |h[r.header]| > 0 && env.fault(id, r.index) != HeaderReadFault
  {
    HeaderMatches(ReadHeader(h, r.header, env.fault(id, r.index) == HeaderReadFault), r.pattern, env.fullMatch)
  }

  /** Rule `r` copies message `id` into its destination: it matches, the log
      reads, the folder lookup and the copy all succeed, and the destination
      exists (copying into a missing folder throws). */
  predicate RuleCopies(r: Rule, h: HeaderMap, id: MsgId, env: Env, names: set<string>): (b: bool)
    ensures b ==> r.header in h && r.destination in names && env.fault(id, r.index) in {NoFault, FlagFault}
  {
    && RuleMatches(r, h, id, env)
    && env.fault(id, r.index) !in {LogReadFault, ResolveFault, CopyFault}
    && r.destination in names
  }

  /** Rule `r` sets DELETED on message `id`: it copied and the flag update
      succeeded. */
  predicate RuleFlags(r: Rule, h: HeaderMap, id: MsgId, env: Env, names: set<string>): (b: bool)
    ensures b ==> RuleCopies(r, h, id, env, names) && env.fault(id, r.index) == NoFault
  {
    RuleCopies(r, h, id, env, names) && env.fault(id, r.index) != FlagFault
  }

  /** The folders message `id` is copied into by the walk over `rules`, in
      rule order, one entry per copying rule. */
  function Destinations(rules: seq<Rule>, h: HeaderMap, id: MsgId, env: Env, names: set<string>): (ds: seq<string>)
    ensures |ds| <= |rules|
    ensures forall d :: d in ds ==> d in names
  {
    if rules == [] then []
    else
      var last := rules[|rules| - 1];
      Destinations(rules[..|rules| - 1], h, id, env, names)
        + (if RuleCopies(last, h, id, env, names) then [last.destination] else [])
  }

  /** Some rule in `rules` sets DELETED on message `id`. */
  predicate AnyFlagged(rules: seq<Rule>, h: HeaderMap, id: MsgId, env: Env, names: set<string>)
  {
    exists i :: 0 <= i < |rules| && RuleFlags(rules[i], h, id, env, names)
  }

  /** The walk extended by one rule. */
  lemma {:induction false} DestinationsSnoc(rules: seq<Rule>, r: Rule, h: HeaderMap, id: MsgId, env: Env, names: set<string>)
    ensures Destinations(rules + [r], h, id, env, names)
         == Destinations(rules, h, id, env, names) + (if RuleCopies(r, h, id, env, names) then [r.destination] else [])
  {
    assert (rules + [r])[..|rules|] == rules;
  }

  /** One more rule flags the message iff it flags it or an earlier one did. */
  lemma {:induction false} AnyFlaggedSnoc(rules: seq<Rule>, r: Rule, h: HeaderMap, id: MsgId, env: Env, names: set<string>)
    ensures AnyFlagged(rules + [r], h, id, env, names)
        <==> AnyFlagged(rules, h, id, env, names) || RuleFlags(r, h, id, env, names)
  {
    var rs := rules + [r];
    assert rs[|rules|] == r;
    assert forall i :: 0 <= i < |rules| ==> rs[i] == rules[i];
  }

  /** The walk has no early exit: the rules after a prefix contribute their
      copies after the prefix's, whatever the prefix did or failed to do. */
  lemma {:induction false} DestinationsAppend(a: seq<Rule>, b: seq<Rule>, h: HeaderMap, id: MsgId, env: Env, names: set<string>)
    ensures Destinations(a + b, h, id, env, names)
         == Destinations(a, h, id, env, names) + Destinations(b, h, id, env, names)
    decreases |b|
  {
    if b == [] {
      assert a + b == a;
    } else {
      var b' := b[..|b| - 1];
      assert (a + b)[..|a + b| - 1] == a + b';
      assert (a + b)[|a + b| - 1] == b[|b| - 1];
      DestinationsAppend(a, b', h, id, env, names);
    }
  }

  /** A folder receives a copy exactly when some copying rule names it. */
  lemma {:induction false} DestinationsMembership(rules: seq<Rule>, h: HeaderMap, id: MsgId, env: Env, names: set<string>, d: string)
    ensures d in Destinations(rules, h, id, env, names)
        <==> exists i :: 0 <= i < |rules| && RuleCopies(rules[i], h, id, env, names) && rules[i].destination == d
    decreases |rules|
  {
    if rules != [] {
      var rules' := rules[..|rules| - 1];
      DestinationsMembership(rules', h, id, env, names, d);
      assert forall i :: 0 <= i < |rules'| ==> rules'[i] == rules[i];
      if d in Destinations(rules', h, id, env, names) {
        var i :| 0 <= i < |rules'| && RuleCopies(rules'[i], h, id, env, names) && rules'[i].destination == d;
        assert rules[i] == rules'[i];
      }
    }
  }

  /** DELETED is only set on a message that was copied somewhere: a flag
      without a copy would lose the message at expunge. */
  lemma {:induction false} DeletedOnlyIfCopied(rules: seq<Rule>, h: HeaderMap, id: MsgId, env: Env, names: set<string>)
    requires AnyFlagged(rules, h, id, env, names)
    ensures Destinations(rules, h, id, env, names) != []
  {
    var i :| 0 <= i < |rules| && RuleFlags(rules[i], h, id, env, names);
    DestinationsMembership(rules, h, id, env, names, rules[i].destination);
  }

  /** Only the faults of a walk's own rules decide its outcome: two fault
      plans that agree on every rule of the walk give the same copies and the
      same DELETED flag. With `DestinationsAppend`, a failure in one rule
      leaves the copies made by every other rule as they were. */
  lemma {:induction false} FaultLocality(rules: seq<Rule>, h: HeaderMap, id: MsgId, fm: Matcher,
                                         f1: (MsgId, nat) -> Fault, f2: (MsgId, nat) -> Fault, names: set<string>)
    requires forall i :: 0 <= i < |rules| ==> f1(id, rules[i].index) == f2(id, rules[i].index)
    ensures Destinations(rules, h, id, Env(fm, f1), names) == Destinations(rules, h, id, Env(fm, f2), names)
    ensures AnyFlagged(rules, h, id, Env(fm, f1), names) <==> AnyFlagged(rules, h, id, Env(fm, f2), names)
    decreases |rules|
  {
    if rules != [] {
      var rules' := rules[..|rules| - 1];
      assert forall i :: 0 <= i < |rules'| ==> rules'[i] == rules[i];
      FaultLocality(rules', h, id, fm, f1, f2, names);
      assert forall i :: 0 <= i < |rules| ==>
        (RuleFlags(rules[i], h, id, Env(fm, f1), names) <==> RuleFlags(rules[i], h, id, Env(fm, f2), names));
    }
  }

  /** Some rule of `a + b` flags the message iff some rule of `a` or of `b`
      does. */
  lemma {:induction false} AnyFlaggedAppend(a: seq<Rule>, b: seq<Rule>, h: HeaderMap, id: MsgId, env: Env, names: set<string>)
    ensures AnyFlagged(a + b, h, id, env, names)
        <==> AnyFlagged(a, h, id, env, names) || AnyFlagged(b, h, id, env, names)
  {
    var ab := a + b;
    if AnyFlagged(ab, h, id, env, names) {
      var i :| 0 <= i < |ab| && RuleFlags(ab[i], h, id, env, names);
      if i < |a| {
        assert ab[i] == a[i];
      } else {
        assert ab[i] == b[i - |a|];
      }
    }
    if AnyFlagged(a, h, id, env, names) {
      var i :| 0 <= i < |a| && RuleFlags(a[i], h, id, env, names);
      assert ab[i] == a[i];
    }
    if AnyFlagged(b, h, id, env, names) {
      var i :| 0 <= i < |b| && RuleFlags(b[i], h, id, env, names);
      assert ab[|a| + i] == b[i];
    }
  }

  /** A rule whose log read, folder lookup or copy fails contributes no copy
      and no DELETED flag, and the rules before and after it run as if it
      were not there. */
  lemma {:induction false} FailedRuleSkipped(before: seq<Rule>, r: Rule, after: seq<Rule>, h: HeaderMap, id: MsgId,
                                             env: Env, names: set<string>)
    requires env.fault(id, r.index) in {LogReadFault, ResolveFault, CopyFault}
    ensures Destinations(before + [r] + after, h, id, env, names)
         == Destinations(before, h, id, env, names) + Destinations(after, h, id, env, names)
    ensures AnyFlagged(before + [r] + after, h, id, env, names)
        <==> AnyFlagged(before, h, id, env, names) || AnyFlagged(after, h, id, env, names)
  {
    DestinationsAppend(before + [r], after, h, id, env, names);
    DestinationsSnoc(before, r, h, id, env, names);
    assert Destinations(before, h, id, env, names) + [] == Destinations(before, h, id, env, names);
    AnyFlaggedAppend(before + [r], after, h, id, env, names);
    AnyFlaggedSnoc(before, r, h, id, env, names);
  }

  /** One rule on Subject with pattern "Spam.*" into Junk, and a message
      whose Subject is "Spam report": the message is copied into Junk once
      and flagged DELETED. */
  lemma {:induction false} SingleRuleExample(h: HeaderMap, id: MsgId, env: Env, names: set<string>)
    requires h == map["Subject" := ["Spam report"]]
    requires env.fullMatch("Spam report", "Spam.*") && env.fault(id, 1) == NoFault && "Junk" in names
    ensures var rule := Rule(1, "Subject", "Spam.*", "Junk");
      Destinations([rule], h, id, env, names) == ["Junk"] && AnyFlagged([rule], h, id, env, names)
  {
    var rule := Rule(1, "Subject", "Spam.*", "Junk");
    NormalizeIdentity("Spam report");
    assert HeaderMatches(ReadHeader(h, "Subject", false), "Spam.*", env.fullMatch) by {
      assert ReadHeader(h, "Subject", false).values[0] == "Spam report";
    }
    assert RuleFlags([rule][0], h, id, env, names);
    assert [rule][..0] == [];
  }

  /** Two rules that both match a message without any failure: the message is
      copied into both destinations, in rule order, and flagged DELETED. */
  lemma {:induction false} TwoMatchingRules(r1: Rule, r2: Rule, h: HeaderMap, id: MsgId, env: Env, names: set<string>)
    requires RuleMatches(r1, h, id, env) && RuleMatches(r2, h, id, env)
    requires env.fault(id, r1.index) == NoFault && env.fault(id, r2.index) == NoFault
    requires r1.destination in names && r2.destination in names
    ensures Destinations([r1, r2], h, id, env, names) == [r1.destination, r2.destination]
    ensures AnyFlagged([r1, r2], h, id, env, names)
  {
    assert [r1, r2][..1] == [r1];
    assert [r1][..0] == [];
    assert RuleFlags([r1, r2][0], h, id, env, names);
  }

  // ---------------------------------------------------------------------
  // Recording the copies

  /** `copyMessages([m], target)` for an existing target appends a copy of
      `m`; copying into a name that is not a folder changes nothing. */
  function CopyInto(f: Folders, dest: string, id: MsgId): (r: Folders)
    ensures r.Keys == f.Keys
    ensures dest in f ==> r[dest] == f[dest] + [id]
    ensures forall n :: n in f && n != dest ==> r[n] == f[n]
  {
    if dest in f then f[dest := f[dest] + [id]] else f
  }

  /** Copies of message `id` into each of `ds`, in order. */
  function AddCopies(f: Folders, id: MsgId, ds: seq<string>): (r: Folders)
    ensures r.Keys == f.Keys
  {
    if ds == [] then f else CopyInto(AddCopies(f, id, ds[..|ds| - 1]), ds[|ds| - 1], id)
  }

  lemma {:induction false} AddCopiesSnoc(f: Folders, id: MsgId, ds: seq<string>, d: string)
    ensures AddCopies(f, id, ds + [d]) == CopyInto(AddCopies(f, id, ds), d, id)
  {
    assert (ds + [d])[..|ds|] == ds;
  }

  /** One step of the walk on the folders: rule `r` adds its copy, if it
      makes one, after those of the rules before it. */
  lemma {:induction false} WalkStepFolders(f: Folders, id: MsgId, before: seq<Rule>, r: Rule, h: HeaderMap, env: Env,
                        names: set<string>, copied: bool, after: Folders)
    requires copied == RuleCopies(r, h, id, env, names)
    requires after == if copied then CopyInto(AddCopies(f, id, Destinations(before, h, id, env, names)), r.destination, id)
                      else AddCopies(f, id, Destinations(before, h, id, env, names))
    ensures after == AddCopies(f, id, Destinations(before + [r], h, id, env, names))
  {
    DestinationsSnoc(before, r, h, id, env, names);
    if copied {
      AddCopiesSnoc(f, id, Destinations(before, h, id, env, names), r.destination);
    } else {
      assert Destinations(before, h, id, env, names) + [] == Destinations(before, h, id, env, names);
    }
  }

  /** One step of the walk on the flags: DELETED is added once, by the first
      rule that sets it; later rules setting it again change nothing. */
  lemma {:induction false} WalkStepFlags(fl: map<MsgId, set<Flag>>, id: MsgId, before: seq<Rule>, r: Rule, h: HeaderMap, env: Env,
                      names: set<string>, mid: map<MsgId, set<Flag>>, after: map<MsgId, set<Flag>>)
    requires id in fl
    requires mid == if AnyFlagged(before, h, id, env, names) then fl[id := fl[id] + {Deleted}] else fl
    requires after == if RuleFlags(r, h, id, env, names) then mid[id := mid[id] + {Deleted}] else mid
    ensures after == if AnyFlagged(before + [r], h, id, env, names) then fl[id := fl[id] + {Deleted}] else fl
  {
    AnyFlaggedSnoc(before, r, h, id, env, names);
    if AnyFlagged(before, h, id, env, names) && RuleFlags(r, h, id, env, names) {
      assert fl[id] + {Deleted} + {Deleted} == fl[id] + {Deleted};
    }
  }

  function Count(ds: seq<string>, name: string): nat
  {
    if ds == [] then 0 else Count(ds[..|ds| - 1], name) + (if ds[|ds| - 1] == name then 1 else 0)
  }

  /** Each folder receives one copy per entry naming it, repeats included,
      after what it already held. */
  lemma {:induction false} AddCopiesAt(f: Folders, id: MsgId, ds: seq<string>, name: string)
    requires name in f
    ensures AddCopies(f, id, ds)[name] == f[name] + seq(Count(ds, name), _ => id)
    decreases |ds|
  {
    if ds != [] {
      AddCopiesAt(f, id, ds[..|ds| - 1], name);
      var k := Count(ds[..|ds| - 1], name);
      if ds[|ds| - 1] == name {
        assert seq(k, _ => id) + [id] == seq(k + 1, _ => id);
      }
    }
  }
}
