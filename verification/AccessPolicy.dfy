/** What blocksec.c decides, and the history its audit log and label table stand for. */
module AccessPolicy {
  import opened Options
  import opened Collections
  import opened Words
  import opened Bits
  import opened Numerals

  const MODE_DISABLED: byte := 0
  const MODE_PERMISSIVE: byte := 1
  const MODE_ENFORCING: byte := 2
  const MAX_RULES: nat := 1024
  const LOG_SIZE: nat := 512
  const MAX_LABELS: nat := 256

  datatype Rule = Rule(source: string, target: string, objectClass: byte, permissions: word, allow: bool, name: string)

  datatype Request = Request(source: string, target: string, objectClass: byte, perm: word)

  /** The rule is about this kind of access; one common permission is enough. */
  predicate Matches(r: Rule, q: Request) {
    && (r.source == q.source || r.source == "any_t")
    && (r.target == q.target || r.target == "any_t")
    && r.objectClass == q.objectClass
    && And(r.permissions, q.perm) != 0
  }

  ghost predicate SomeRule(rules: seq<Rule>, q: Request, allow: bool) {
    exists r :: r in rules && r.allow == allow && Matches(r, q)
  }

  /** Some matching rule allows and none denies. */
  ghost predicate Allowed(rules: seq<Rule>, q: Request) {
    SomeRule(rules, q, true) && !SomeRule(rules, q, false)
  }

  // ------------------------------------------------------------------ what the decision depends on

  /** The order and the multiplicity of the rules do not matter. */
  lemma SameRulesSameDecision(a: seq<Rule>, b: seq<Rule>, q: Request)
    requires forall r :: r in a <==> r in b
    ensures Allowed(a, q) <==> Allowed(b, q)
  {
  }

  /** A rule put in anywhere: one that denies only ever takes away, one that allows only ever
      grants, and a rule that does not match does nothing. */
  lemma AddedRule(a: seq<Rule>, r: Rule, b: seq<Rule>, q: Request)
    ensures Allowed(a + [r] + b, q) <==>
      if !Matches(r, q) then Allowed(a + b, q)
      else if r.allow then !SomeRule(a + b, q, false)
      else false
    ensures !r.allow && Allowed(a + [r] + b, q) ==> Allowed(a + b, q)
    ensures r.allow && Allowed(a + b, q) ==> Allowed(a + [r] + b, q)
  {
    hide Matches;
    forall x ensures x in a + [r] + b <==> x == r || x in a + b { }
    forall allow ensures SomeRule(a + [r] + b, q, allow) <==> SomeRule(a + b, q, allow) || (r.allow == allow && Matches(r, q)) {
      if r.allow == allow && Matches(r, q) { assert r in a + [r] + b; }
      if SomeRule(a + b, q, allow) {
        var x :| x in a + b && x.allow == allow && Matches(x, q);
        assert x in a + [r] + b;
      }
    }
  }

  // ------------------------------------------------------------------ what a rule is about

  /** A single rule grants exactly the requests of its source, or any, to its target, or any,
      for its class, with a permission in common; if it denies, it grants nothing. */
  lemma SingleRule(r: Rule, q: Request)
    ensures Allowed([r], q) <==>
      && r.allow
      && (r.source == q.source || r.source == "any_t")
      && (r.target == q.target || r.target == "any_t")
      && r.objectClass == q.objectClass
      && Shares(r.permissions, q.perm)
  {
    hide And, Shares;
    CommonBit(r.permissions, q.perm);
    assert r in [r];
  }

  /** What a request gets from a list of rules is what it gets from each of them alone: one that
      allows must grant it, and no other may deny what it would grant if it allowed. */
  lemma RuleByRule(rules: seq<Rule>, q: Request)
    ensures Allowed(rules, q) <==>
      && (exists r :: r in rules && r.allow && Allowed([r], q))
      && !(exists r :: r in rules && !r.allow && Allowed([r.(allow := true)], q))
  {
    hide And;
    forall r: Rule | r.allow ensures Allowed([r], q) <==> Matches(r, q) { AllowsAlone(r, q); }
    forall r: Rule ensures Allowed([r.(allow := true)], q) <==> Matches(r, q) { AllowsAlone(r.(allow := true), q); }
  }

  lemma AllowsAlone(r: Rule, q: Request)
    requires r.allow
    ensures Allowed([r], q) <==> Matches(r, q)
  {
    hide Matches;
    assert r in [r];
  }

  /** The rules of other classes do not matter, whatever else they say; so a request of a class
      that no rule has is not allowed. */
  lemma OtherClasses(a: seq<Rule>, b: seq<Rule>, q: Request)
    requires forall r: Rule :: r.objectClass == q.objectClass ==> (r in a <==> r in b)
    ensures Allowed(a, q) <==> Allowed(b, q)
    ensures (forall r :: r in a ==> r.objectClass != q.objectClass) ==> !Allowed(a, q)
  {
    hide And;
  }

  /** Neither do rules about other sources, nor is anything allowed to a source no rule names. */
  lemma OtherSources(a: seq<Rule>, b: seq<Rule>, q: Request)
    requires forall r: Rule :: r.source == q.source || r.source == "any_t" ==> (r in a <==> r in b)
    ensures Allowed(a, q) <==> Allowed(b, q)
    ensures (forall r :: r in a ==> r.source != q.source && r.source != "any_t") ==> !Allowed(a, q)
  {
    hide And;
  }

  lemma OtherTargets(a: seq<Rule>, b: seq<Rule>, q: Request)
    requires forall r: Rule :: r.target == q.target || r.target == "any_t" ==> (r in a <==> r in b)
    ensures Allowed(a, q) <==> Allowed(b, q)
    ensures (forall r :: r in a ==> r.target != q.target && r.target != "any_t") ==> !Allowed(a, q)
  {
    hide And;
  }

  /** When all rules are about any source, or any target, it does not matter which one asks, or
      is asked for. */
  lemma AnySource(rules: seq<Rule>, q: Request, source: string)
    requires forall r :: r in rules ==> r.source == "any_t"
    ensures Allowed(rules, q) <==> Allowed(rules, q.(source := source))
  {
    hide And;
  }

  lemma AnyTarget(rules: seq<Rule>, q: Request, target: string)
    requires forall r :: r in rules ==> r.target == "any_t"
    ensures Allowed(rules, q) <==> Allowed(rules, q.(target := target))
  {
    hide And;
  }

  lemma {:induction false} AndOr(p: nat, a: nat, b: nat)
    ensures And(p, Or(a, b)) != 0 <==> And(p, a) != 0 || And(p, b) != 0
    decreases p
  {
    if p != 0 && (a != 0 || b != 0) {
      AndOr(p / 2, a / 2, b / 2);
      OrDigits(a, b);
    }
  }

  /** A request for two permissions at once is granted when a rule allows one of them and no
      rule denies one of them. */
  lemma CombinedRequest(rules: seq<Rule>, q: Request, a: word, b: word)
    requires Or(a, b) < WORD
    ensures Allowed(rules, q.(perm := Or(a, b))) <==>
      && (SomeRule(rules, q.(perm := a), true) || SomeRule(rules, q.(perm := b), true))
      && !SomeRule(rules, q.(perm := a), false) && !SomeRule(rules, q.(perm := b), false)
  {
    hide And, Or;
    var u: word := Or(a, b);
    forall r: Rule ensures Matches(r, q.(perm := u)) <==> Matches(r, q.(perm := a)) || Matches(r, q.(perm := b)) {
      AndOr(r.permissions, a, b);
    }
  }

  // ------------------------------------------------------------------ the answer of blocksec_check

  /** Whether the access may go ahead.  `source` is the type the process is labelled with. */
  ghost predicate Granted(mode: byte, rules: seq<Rule>, source: Option<string>, target: string, objectClass: byte, perm: word) {
    mode == MODE_DISABLED ||
    match source
    case None => mode != MODE_ENFORCING
    case Some(t) => mode == MODE_PERMISSIVE || Allowed(rules, Request(t, target, objectClass, perm))
  }

  /** In the three defined modes only enforcing refuses anything, and there it refuses exactly
      unlabelled processes and what the rules do not allow. */
  lemma RefusedIff(mode: byte, rules: seq<Rule>, source: Option<string>, target: string, c: byte, perm: word)
    requires mode <= MODE_ENFORCING
    ensures !Granted(mode, rules, source, target, c, perm) <==>
      mode == MODE_ENFORCING && (source.None? || !Allowed(rules, Request(source.value, target, c, perm)))
  {
    hide Allowed;
  }

  /** Only the two modes say yes without asking the rules, and only for an unlabelled process is
      the mode asked whether it is enforcing. */
  lemma GrantedIff(mode: byte, rules: seq<Rule>, source: Option<string>, target: string, c: byte, perm: word)
    ensures source.None? ==> (Granted(mode, rules, source, target, c, perm) <==> mode != 2)
    ensures source.Some? && mode >= 2 ==>
      (Granted(mode, rules, source, target, c, perm) <==> Allowed(rules, Request(source.value, target, c, perm)))
    ensures source.Some? && mode < 2 ==> Granted(mode, rules, source, target, c, perm)
  {
    hide Allowed;
  }

  /** blocksec_set_mode takes any byte, and with an undefined mode it is the unlabelled process
      that gets through. */
  lemma UndefinedMode(mode: byte, target: string, c: byte, perm: word)
    requires mode > MODE_ENFORCING
    ensures Granted(mode, [], None, target, c, perm) && !Granted(mode, [], Some("user_t"), target, c, perm)
  {
    assert !SomeRule([], Request("user_t", target, c, perm), true);
  }

  // ------------------------------------------------------------------ rules by name

  /** A rule in the table: strncpy cuts the texts to their fields. */
  function NewRule(src: string, tgt: string, c: byte, perms: word, allow: bool, name: string): Rule {
    Rule(Cut(src, 31), Cut(tgt, 31), c, perms, allow, Cut(name, 63))
  }

  /** A rule is stored as it was given if and only if its texts fit; a source or target that was
      cut is another one. */
  lemma StoredAsGiven(src: string, tgt: string, c: byte, perms: word, allow: bool, name: string)
    ensures NewRule(src, tgt, c, perms, allow, name) == Rule(src, tgt, c, perms, allow, name) <==>
      |src| <= 31 && |tgt| <= 31 && |name| <= 63
  {
  }

  /** The position of the first rule of that name, or the number of rules. */
  function FirstNamed(rules: seq<Rule>, name: string): (i: nat)
    ensures i <= |rules| && (i < |rules| ==> rules[i].name == name)
    ensures forall k :: 0 <= k < i ==> rules[k].name != name
  {
    if rules == [] || rules[0].name == name then 0 else 1 + FirstNamed(rules[1..], name)
  }

  function Removed(rules: seq<Rule>, name: string): seq<Rule> {
    var i := FirstNamed(rules, name);
    if i == |rules| then rules else rules[..i] + rules[i + 1..]
  }

  /** Of several rules of that name the first one goes; all others stay, in their order. */
  lemma FirstIsRemoved(a: seq<Rule>, r: Rule, b: seq<Rule>)
    requires forall x :: x in a ==> x.name != r.name
    ensures Removed(a + [r] + b, r.name) == a + b
  {
    hide FirstNamed;
    var all := a + [r] + b;
    var i := FirstNamed(all, r.name);
    assert all[|a|] == r;
    assert forall k :: 0 <= k < |a| ==> all[k] == a[k] && a[k] in a;
    assert i == |a|;
  }

  lemma UnknownName(rules: seq<Rule>, name: string)
    requires forall x :: x in rules ==> x.name != name
    ensures Removed(rules, name) == rules
  {
    hide FirstNamed;
  }

  /** Removing a rule that was just added under a name of its own restores the rules, if and
      only if the name was not cut off. */
  lemma RemoveUndoesAddIff(rules: seq<Rule>, src: string, tgt: string, c: byte, perms: word, allow: bool, name: string)
    requires FirstNamed(rules, name) == |rules|
    ensures Removed(rules + [NewRule(src, tgt, c, perms, allow, name)], name) == rules <==> |name| <= 63
  {
    hide FirstNamed;
    var r := NewRule(src, tgt, c, perms, allow, name);
    var all := rules + [r];
    var i := FirstNamed(all, name);
    assert forall k :: 0 <= k < |rules| ==> all[k] == rules[k];
    if |name| <= 63 { assert all[|rules|].name == name; }
  }

  /** For example a rule whose name has 64 characters, added to no rules: it stays. */
  lemma LongNameStays(src: string, tgt: string, c: byte, perms: word, allow: bool)
    ensures var name := seq(64, _ => 'x');
      Removed([NewRule(src, tgt, c, perms, allow, name)], name) != []
  {
    hide Removed, NewRule;
    var name := seq(64, _ => 'x');
    assert FirstNamed([], name) == 0;
    RemoveUndoesAddIff([], src, tgt, c, perms, allow, name);
    assert [] + [NewRule(src, tgt, c, perms, allow, name)] == [NewRule(src, tgt, c, perms, allow, name)];
  }

  // ------------------------------------------------------------------ process labels

  datatype Label = Label(user: string, role: string, kind: string, level: word)

  datatype Labelled = Labelled(pid: word, tag: Label)

  ghost predicate OnePerPid(t: seq<Labelled>) {
    forall i, j :: 0 <= i < j < |t| ==> t[i].pid != t[j].pid
  }

  function LabelOf(t: seq<Labelled>, pid: word): Option<Label> {
    if t == [] then None else if t[0].pid == pid then Some(t[0].tag) else LabelOf(t[1..], pid)
  }

  /** The position of a process in the table, or its length. */
  function PidAt(t: seq<Labelled>, pid: word): (i: nat)
    ensures i <= |t| && (i < |t| ==> t[i].pid == pid) && forall k :: 0 <= k < i ==> t[k].pid != pid
  {
    if t == [] || t[0].pid == pid then 0 else 1 + PidAt(t[1..], pid)
  }

  lemma {:induction false} LabelIsAt(t: seq<Labelled>, pid: word)
    ensures LabelOf(t, pid) == if PidAt(t, pid) == |t| then None else Some(t[PidAt(t, pid)].tag)
  {
    if t != [] && t[0].pid != pid { LabelIsAt(t[1..], pid); }
  }

  /** blocksec_set_process_label: nothing happens for a new process when the table is full. */
  function Relabelled(t: seq<Labelled>, pid: word, l: Label): (r: seq<Labelled>)
    ensures |r| <= |t| + 1
  {
    var i := PidAt(t, pid);
    if i < |t| then t[i := Labelled(pid, l)]
    else if |t| < MAX_LABELS then t + [Labelled(pid, l)]
    else t
  }

  /** A process has the label it was last given, the others keep theirs, and no process gets
      two entries. */
  lemma LabelAfterSet(t: seq<Labelled>, pid: word, l: Label, other: word)
    requires OnePerPid(t)
    ensures OnePerPid(Relabelled(t, pid, l))
    ensures LabelOf(Relabelled(t, pid, l), other) ==
      if other == pid && (PidAt(t, pid) < |t| || |t| < MAX_LABELS) then Some(l) else LabelOf(t, other)
  {
    hide LabelOf, PidAt;
    var r := Relabelled(t, pid, l);
    LabelIsAt(r, other);
    LabelIsAt(t, other);
    var i, j := PidAt(t, other), PidAt(r, other);
    if j < |t| { assert r[j].pid == t[j].pid; }
    if i < |t| { assert r[i].pid == t[i].pid; }
    if |r| > |t| { assert r[|t|] == Labelled(pid, l); }
    if PidAt(t, pid) < |t| { assert r[PidAt(t, pid)] == Labelled(pid, l); }
  }

  // ------------------------------------------------------------------ the log

  datatype Entry = Entry(time: nat, pid: word, source: string, target: string, objectClass: byte, perm: word,
                         allowed: bool, message: string)

  const CLASS_NAMES: seq<string> := ["file", "dir", "process", "socket", "device", "pipe", "shm", "kernel"]

  function ClassName(c: byte): string {
    if c < 8 then CLASS_NAMES[c] else "unknown"
  }

  function IfAsked(perm: word, bit: word, name: string): string {
    if And(perm, bit) != 0 then name else ""
  }

  /** Bits 0 to 3 of the permissions have names. */
  lemma NamedPermissions(perm: word, name: string)
    ensures IfAsked(perm, 1, name) == (if Bit(perm, 0) then name else "") && IfAsked(perm, 2, name) == (if Bit(perm, 1) then name else "")
    ensures IfAsked(perm, 4, name) == (if Bit(perm, 2) then name else "") && IfAsked(perm, 8, name) == (if Bit(perm, 3) then name else "")
  {
    hide And, Bit;
    SmallPowers();
    OneBit(perm, 0);
    OneBit(perm, 1);
    OneBit(perm, 2);
    OneBit(perm, 3);
  }

  lemma SmallPowers()
    ensures Pow2(0) == 1 && Pow2(1) == 2 && Pow2(2) == 4 && Pow2(3) == 8
  {
    assert Pow2(3) == 2 * Pow2(2) && Pow2(2) == 2 * Pow2(1) && Pow2(1) == 2 * Pow2(0);
  }

  /** The classes in the order of their numbers. */
  lemma NamedClasses(c: byte)
    ensures c >= 8 ==> ClassName(c) == "unknown"
    ensures ClassName(0) == "file" && ClassName(1) == "dir" && ClassName(2) == "process" && ClassName(3) == "socket"
    ensures ClassName(4) == "device" && ClassName(5) == "pipe" && ClassName(6) == "shm" && ClassName(7) == "kernel"
  {
  }

  function LogHead(perm: word, allowed: bool): string {
    (if allowed then "ALLOW" else "DENY") + (": avc: " + ((if allowed then "allowed" else "denied") + (" { " +
      (IfAsked(perm, 1, "read ") + (IfAsked(perm, 2, "write ") + (IfAsked(perm, 4, "exec ") + (IfAsked(perm, 8, "create ") + " } pid=")))))))
  }

  function LogContext(pid: word, src: string, tgt: string, c: byte): string {
    Numeral(pid, 10) + (" scontext=" + (src + (" tcontext=" + (tgt + (" tclass=" + ClassName(c))))))
  }

  /** The line blocksec_log writes about a decision, if there were room for all of it. */
  function LogText(pid: word, src: string, tgt: string, c: byte, perm: word, allowed: bool): string {
    LogHead(perm, allowed) + LogContext(pid, src, tgt, c)
  }

  /** One entry of the log: the texts are cut to their fields. */
  function NewEntry(now: nat, pid: word, src: string, tgt: string, c: byte, perm: word, allowed: bool): Entry {
    Entry(now, pid, Cut(src, 31), Cut(tgt, 31), c, perm, allowed, Cut(LogText(pid, src, tgt, c, perm, allowed), 126))
  }

  /** The last `n` of a history. */
  function Last(all: seq<Entry>, n: nat): (r: seq<Entry>)
    ensures |r| == if n <= |all| then n else |all|
  {
    if n <= |all| then all[|all| - n..] else all
  }

  /** They are the newest ones, in their order. */
  lemma LastAreNewest(all: seq<Entry>, n: nat)
    ensures all[..|all| - |Last(all, n)|] + Last(all, n) == all
  {
  }

  function CountAllowed(all: seq<Entry>, allowed: bool): nat {
    if all == [] then 0 else (if all[|all| - 1].allowed == allowed then 1 else 0) + CountAllowed(all[..|all| - 1], allowed)
  }

  /** Every entry counts as allowed or as denied. */
  lemma {:induction false} CountsAddUp(all: seq<Entry>)
    ensures CountAllowed(all, true) + CountAllowed(all, false) == |all|
  {
    if all != [] { CountsAddUp(all[..|all| - 1]); }
  }

  lemma CountMore(all: seq<Entry>, e: Entry, allowed: bool)
    ensures CountAllowed(all + [e], allowed) == CountAllowed(all, allowed) + if e.allowed == allowed then 1 else 0
  {
    assert (all + [e])[..|all|] == all;
  }
}
