/** blocksec.c: the rule table, the audit log and the process labels, changed in place. */
module BlockSec {
  import opened Options
  import opened Collections
  import opened Words
  import opened Bits
  import opened AccessPolicy
  import NumberText
  import opened Numerals
  import opened Snprintf
  import RingBuffer
  import Division

  // ------------------------------------------------------------------ the log as a ring

  /** The ring `m` holds the last entries of the history `all`, each at its number modulo the
      size of the ring. */
  ghost predicate Holds(m: seq<Entry>, all: seq<Entry>, head: nat, count: nat) {
    && |m| == 512 && count == |Last(all, LOG_SIZE)| && head == |all| % WORD
    && forall a :: |all| - count <= a < |all| ==> Kept(m, all, a)
  }

  ghost predicate Kept(m: seq<Entry>, all: seq<Entry>, a: nat)
    requires |m| == 512 && a < |all|
  {
    m[RingBuffer.Cell(a, 512)] == all[a]
  }

  /** Storing at the head forgets the oldest entry when the ring is full. */
  lemma StoreKeeps(m: seq<Entry>, all: seq<Entry>, head: nat, count: nat, e: Entry)
    requires Holds(m, all, head, count)
    ensures Holds(m[RingBuffer.Cell(head, 512) := e], all + [e], (head + 1) % WORD, if count < 512 then count + 1 else count)
  {
    hide RingBuffer.Cell;
    RingBuffer.WrapKeepsCell(|all|, 0, 512, WORD, 0x80_0000);
    RingBuffer.ModOnce(|all|, 1, WORD);
    var m', all', count' := m[RingBuffer.Cell(head, 512) := e], all + [e], if count < 512 then count + 1 else count;
    forall a | |all'| - count' <= a < |all'| ensures Kept(m', all', a) {
      if a < |all| {
        assert Kept(m, all, a);
        RingBuffer.CellsApart(a, |all| - a, 512);
      }
    }
  }

  /** What blocksec_get_log is asked for, and how much of it there is. */
  lemma Remembered(m: seq<Entry>, all: seq<Entry>, head: nat, count: nat, max: nat)
    requires Holds(m, all, head, count)
    ensures var n := if count < max then count else max;
      n <= |all| && Last(Last(all, LOG_SIZE), max) == all[|all| - n..]
    ensures |m| == 512 && count <= 512 && count <= |all|
  {
  }

  lemma EntryAt(m: seq<Entry>, all: seq<Entry>, head: nat, count: nat, n: nat, i: nat)
    requires Holds(m, all, head, count) && i < n <= count <= |all|
    ensures var j := (head - n + i) % WORD % 512;
      0 <= j < |m| && m[j] == all[|all| - n..][i]
  {
    hide RingBuffer.Cell, Last;
    Index(|all|, n, i);
    assert Kept(m, all, |all| - n + i);
  }

  /** The index blocksec_get_log computes, with the difference wrapping around, is that of the
      right entry. */
  lemma Index(total: nat, n: nat, i: nat)
    requires n <= total && i < n
    ensures (total % WORD - n + i) % WORD % 512 == RingBuffer.Cell(total - n + i, 512)
  {
    hide RingBuffer.Cell;
    var x, q := total - n + i, total / WORD;
    assert total == WORD * q + total % WORD;
    Division.ModMultiple(total % WORD - n + i, WORD, q);
    assert total % WORD - n + i + WORD * q == x;
    RingBuffer.WrapKeepsCell(x, 0, 512, WORD, 0x80_0000);
    CellIs(x % WORD);
  }

  lemma CellIs(a: nat)
    ensures RingBuffer.Cell(a, 512) == a % 512 && a + 0 == a
  {
  }

  // ------------------------------------------------------------------ process labels

  class LabelTable {
    const pids: array<word>
    const tags: array<Label>
    var count: nat

    ghost predicate Valid()
      reads this, pids
    {
      && pids.Length == 256 && tags.Length == 256 && count <= MAX_LABELS
      && forall i, j :: 0 <= i < j < count ==> pids[i] != pids[j]
    }

    ghost function View(): (r: seq<Labelled>)
      requires Valid()
      reads this, pids, tags
      ensures |r| == count && OnePerPid(r)
    {
      seq(count, i requires 0 <= i < count && Valid() reads this, pids, tags => Labelled(pids[i], tags[i]))
    }

    constructor ()
      ensures Valid() && View() == [] && fresh(pids) && fresh(tags)
    {
      pids := new word[256];
      tags := new Label[256];
      count := 0;
    }

    /** blocksec_set_process_label: false only when a new process finds the table full. */
    method SetLabel(pid: word, tag: Label) returns (ok: bool)
      requires Valid()
      modifies this, pids, tags
      ensures Valid() && View() == Relabelled(old(View()), pid, tag)
      ensures ok <==> LabelOf(View(), pid) == Some(tag) && (PidAt(old(View()), pid) < old(count) || old(count) < MAX_LABELS)
    {
      ghost var t := View();
      LabelAfterSet(t, pid, tag, pid);
      for i := 0 to count
        invariant forall k :: 0 <= k < i ==> pids[k] != pid
        invariant View() == t
      {
        if pids[i] == pid {
          assert t[i].pid == pid && forall k :: 0 <= k < i ==> t[k].pid != pid by {
            forall k | 0 <= k < i ensures t[k].pid != pid { assert pids[k] != pid; }
          }
          tags[i] := tag;
          assert View() == t[i := Labelled(pid, tag)];
          return true;
        }
      }
      assert PidAt(t, pid) == |t|;
      if count >= 256 { return false; }
      pids[count] := pid;
      tags[count] := tag;
      count := count + 1;
      assert View() == t + [Labelled(pid, tag)];
      ok := true;
    }

    /** blocksec_get_process_label. */
    method GetLabel(pid: word) returns (tag: Option<Label>)
      requires Valid()
      ensures tag == LabelOf(View(), pid)
    {
      ghost var t := View();
      LabelIsAt(t, pid);
      for i := 0 to count
        invariant forall k :: 0 <= k < i ==> t[k].pid != pid
      {
        if pids[i] == pid {
          assert t[i].pid == pid;
          return Some(tags[i]);
        }
      }
      tag := None;
    }
  }

  // ------------------------------------------------------------------ blocksec_t

  class Security {
    var mode: byte
    const rules: array<Rule>
    var ruleCount: nat
    const log: array<Entry>
    var logHead: word
    var logCount: nat
    var deniedCount: word
    var allowedCount: word

    ghost predicate RulesOk()
      reads this
    {
      rules.Length == 1024 && ruleCount <= MAX_RULES
    }

    ghost function Rules(): (r: seq<Rule>)
      requires RulesOk()
      reads this, rules
      ensures |r| == ruleCount
    {
      rules[..ruleCount]
    }

    /** `all` are the entries logged so far; the counters count them modulo 2^32. */
    ghost predicate Logged(all: seq<Entry>)
      reads this, log
    {
      && Holds(log[..], all, logHead, logCount)
      && allowedCount == CountAllowed(all, true) % WORD && deniedCount == CountAllowed(all, false) % WORD
    }

    /** blocksec_init, before the default policy is loaded. */
    constructor ()
      ensures RulesOk() && Rules() == [] && Logged([]) && mode == MODE_PERMISSIVE && fresh(rules) && fresh(log)
    {
      mode := MODE_PERMISSIVE;
      rules := new Rule[1024];
      log := new Entry[512];
      ruleCount, logHead, logCount, deniedCount, allowedCount := 0, 0, 0, 0, 0;
    }

    /** The counters of allowed and denied accesses together say how often the log was written,
        as far as 32 bits can. */
    lemma CountersMatchHead(all: seq<Entry>)
      requires Logged(all)
      ensures (allowedCount + deniedCount) % WORD == logHead
    {
      var a, d := CountAllowed(all, true), CountAllowed(all, false);
      CountsAddUp(all);
      RingBuffer.ModOnce(a, d % WORD, WORD);
      RingBuffer.ModOnce(d, a, WORD);
      assert a % WORD + d % WORD == d % WORD + a % WORD;
    }

    /** blocksec_add_rule. */
    method AddRule(src: string, tgt: string, c: byte, perms: word, allow: bool, name: string) returns (ok: bool)
      requires RulesOk()
      modifies this`ruleCount, rules
      ensures RulesOk() && (ok <==> old(ruleCount) < MAX_RULES)
      ensures Rules() == old(Rules()) + if ok then [NewRule(src, tgt, c, perms, allow, name)] else []
    {
      if ruleCount >= 1024 { return false; }
      rules[ruleCount] := Rule(Cut(src, 31), Cut(tgt, 31), c, perms, allow, Cut(name, 63));
      ruleCount := ruleCount + 1;
      ok := true;
    }

    /** blocksec_remove_rule: the first rule of that name goes, the later ones move up. */
    method RemoveRule(name: string) returns (ok: bool)
      requires RulesOk()
      modifies this`ruleCount, rules
      ensures RulesOk() && (ok <==> FirstNamed(old(Rules()), name) < old(ruleCount))
      ensures Rules() == Removed(old(Rules()), name)
    {
      hide Removed, FirstNamed;
      ghost var was := Rules();
      for i := 0 to ruleCount
        invariant forall k :: 0 <= k < i ==> was[k].name != name
      {
        if rules[i].name == name {
          RemovedIs(was, i, name);
          MoveUp(i);
          ruleCount := ruleCount - 1;
          assert Rules() == was[..i] + was[i + 1..];
          return true;
        }
      }
      RemovedIs(was, ruleCount, name);
      ok := false;
    }

    /** `for (j = i; j < rule_count - 1; j++) rules[j] = rules[j + 1];` */
    method MoveUp(i: nat)
      requires RulesOk() && i < ruleCount
      modifies rules
      ensures forall k :: 0 <= k < ruleCount - 1 ==> rules[k] == if k < i then old(rules[k]) else old(rules[k + 1])
    {
      for j := i to ruleCount - 1
        invariant forall k :: 0 <= k < ruleCount ==>
          rules[k] == if k < i || k >= j then old(rules[k]) else old(rules[k + 1])
      {
        rules[j] := rules[j + 1];
      }
    }

    /** The scan of blocksec_check. */
    method Decide(q: Request) returns (allowed: bool)
      requires RulesOk()
      ensures allowed <==> Allowed(Rules(), q)
    {
      hide And;
      var foundAllow, foundDeny := false, false;
      for i := 0 to ruleCount
        invariant foundAllow <==> SomeRule(rules[..i], q, true)
        invariant foundDeny <==> SomeRule(rules[..i], q, false)
      {
        assert rules[..i + 1] == rules[..i] + [rules[i]];
        OneMore(rules[..i], rules[i], q);
        var r := rules[i];
        var srcMatch := r.source == q.source || r.source == "any_t";
        var tgtMatch := r.target == q.target || r.target == "any_t";
        if !srcMatch || !tgtMatch { continue; }
        if r.objectClass != q.objectClass { continue; }
        if And(r.permissions, q.perm) == 0 { continue; }
        if r.allow { foundAllow := true; } else { foundDeny := true; }
      }
      allowed := if foundDeny then false else foundAllow;
    }

    /** blocksec_log. */
    method Log(now: nat, pid: word, src: string, tgt: string, c: byte, perm: word, allowed: bool, ghost all: seq<Entry>)
      requires Holds(log[..], all, logHead, logCount)
      modifies this`logHead, this`logCount, log
      ensures Holds(log[..], all + [NewEntry(now, pid, src, tgt, c, perm, allowed)], logHead, logCount)
    {
      hide LogText;
      var message := Message(pid, src, tgt, c, perm, allowed);
      var e := Entry(now, pid, Cut(src, 31), Cut(tgt, 31), c, perm, allowed, message);
      StoreKeeps(log[..], all, logHead, logCount, e);
      ghost var m := log[..];
      CellIs(logHead);
      log[logHead % 512] := e;
      assert log[..] == m[logHead % 512 := e];
      logHead := (logHead + 1) % WORD;
      if logCount < 512 { logCount := logCount + 1; }
    }

    /** blocksec_check at time `now`: whether the access may go ahead; every decision taken by
        the rules is counted and logged. */
    method Check(labels: LabelTable, pid: word, target: string, c: byte, perm: word, now: nat, ghost all: seq<Entry>)
        returns (ok: bool, ghost more: seq<Entry>)
      requires RulesOk() && Logged(all) && labels.Valid()
      modifies this`logHead, this`logCount, this`deniedCount, this`allowedCount, log
      ensures RulesOk() && Logged(more) && Rules() == old(Rules())
      ensures ok <==> Granted(mode, Rules(), TypeOf(labels.View(), pid), target, c, perm)
      ensures more == all + Record(mode, Rules(), TypeOf(labels.View(), pid), target, c, perm, pid, now)
    {
      hide Allowed, LabelOf, Logged, Cut;
      if mode == MODE_DISABLED { return true, all; }
      var tag := labels.GetLabel(pid);
      if tag.None? {
        return mode != MODE_ENFORCING, all;
      }
      var allowed := Decide(Request(tag.value.kind, target, c, perm));
      more := LogAndCount(now, pid, tag.value.kind, target, c, perm, allowed, all);
      ok := allowed || mode == MODE_PERMISSIVE;
    }

    /** The end of blocksec_check: the log is written and one of the counters goes up. */
    method LogAndCount(now: nat, pid: word, src: string, tgt: string, c: byte, perm: word, allowed: bool, ghost all: seq<Entry>)
        returns (ghost more: seq<Entry>)
      requires Logged(all)
      modifies this`logHead, this`logCount, this`deniedCount, this`allowedCount, log
      ensures more == all + [NewEntry(now, pid, src, tgt, c, perm, allowed)] && Logged(more)
    {
      hide Holds, CountAllowed, LogText;
      ghost var e := NewEntry(now, pid, src, tgt, c, perm, allowed);
      Log(now, pid, src, tgt, c, perm, allowed, all);
      more := all + [e];
      CountMore(all, e, true);
      CountMore(all, e, false);
      RingBuffer.ModOnce(CountAllowed(all, e.allowed), 1, WORD);
      if !allowed {
        deniedCount := (deniedCount + 1) % WORD;
      } else {
        allowedCount := (allowedCount + 1) % WORD;
      }
    }

    /** blocksec_get_log: the last entries, oldest first, as many as there are, were kept and
        fit. */
    method GetLog(out: array<Entry>, max: nat, ghost all: seq<Entry>) returns (n: nat)
      requires Holds(log[..], all, logHead, logCount) && max <= out.Length && out != log
      modifies out
      ensures n <= max && out[..n] == Last(Last(all, LOG_SIZE), max) && out[n..] == old(out[n..])
    {
      hide RingBuffer.Cell, Holds, Last;
      Remembered(log[..], all, logHead, logCount, max);
      n := if logCount < max then logCount else max;
      for i := 0 to n
        invariant forall k :: 0 <= k < i ==> out[k] == all[|all| - n..][k]
        invariant out[n..] == old(out[n..])
      {
        EntryAt(log[..], all, logHead, logCount, n, i);
        out[i] := log[(logHead - n + i) % WORD % 512];
      }
    }
  }

  // ------------------------------------------------------------------ the message

  const HEAD_FORMAT: string := "%s: avc: %s { %s%s%s%s } pid="
  const CONTEXT_FORMAT: string := "%u scontext=%s tcontext=%s tclass=%s"
  const LOG_FORMAT: string := HEAD_FORMAT + CONTEXT_FORMAT

  function LogArgs(pid: word, src: string, tgt: string, c: byte, perm: word, allowed: bool): seq<Arg> {
    HeadArgs(perm, allowed) + ContextArgs(pid, src, tgt, c)
  }

  function HeadArgs(perm: word, allowed: bool): seq<Arg> {
    [Str(Some(if allowed then "ALLOW" else "DENY")), Str(Some(if allowed then "allowed" else "denied")),
     Str(Some(IfAsked(perm, 1, "read "))), Str(Some(IfAsked(perm, 2, "write "))),
     Str(Some(IfAsked(perm, 4, "exec "))), Str(Some(IfAsked(perm, 8, "create ")))]
  }

  function ContextArgs(pid: word, src: string, tgt: string, c: byte): seq<Arg> {
    [Uint(pid), Str(Some(src)), Str(Some(tgt)), Str(Some(ClassName(c)))]
  }

  /** The format and its arguments make the line. */
  lemma LogTextIs(pid: word, src: string, tgt: string, c: byte, perm: word, allowed: bool)
    ensures Fits(LOG_FORMAT, LogArgs(pid, src, tgt, c, perm, allowed))
    ensures Formatted(LOG_FORMAT, LogArgs(pid, src, tgt, c, perm, allowed)) == LogText(pid, src, tgt, c, perm, allowed)
  {
    hide Fits, Formatted, UsesAll, HeadArgs, ContextArgs, LogHead, LogContext;
    HeadText(perm, allowed);
    ContextText(pid, src, tgt, c);
    FormattedParts(HEAD_FORMAT, HeadArgs(perm, allowed), CONTEXT_FORMAT, ContextArgs(pid, src, tgt, c));
  }

  lemma FormatSteps()
    ensures "%s" + " tclass=" + "%s" == "%s tclass=%s"
    ensures "%s" + " tcontext=" + "%s tclass=%s" == "%s tcontext=%s tclass=%s"
    ensures "%u" + " scontext=" + "%s tcontext=%s tclass=%s" == CONTEXT_FORMAT
  {
    hide *;
    TargetStep();
    SourceStep();
    PidStep();
  }

  lemma TargetStep()
    ensures "%s" + " tclass=" + "%s" == "%s tclass=%s"
  {
  }

  lemma SourceStep()
    ensures "%s" + " tcontext=" + "%s tclass=%s" == "%s tcontext=%s tclass=%s"
  {
  }

  lemma PidStep()
    ensures "%u" + " scontext=" + "%s tcontext=%s tclass=%s" == CONTEXT_FORMAT
  {
  }

  lemma HeadSteps()
    ensures "%s" + " { " + "%s%s%s%s } pid=" == "%s { %s%s%s%s } pid="
    ensures "%s" + ": avc: " + "%s { %s%s%s%s } pid=" == HEAD_FORMAT
  {
  }

  lemma ContextText(pid: word, src: string, tgt: string, c: byte)
    ensures Prints(CONTEXT_FORMAT, ContextArgs(pid, src, tgt, c), LogContext(pid, src, tgt, c))
  {
    hide Prints, Numeral, ClassName;
    FormatSteps();
    var f, x, t := "%s", [Str(Some(ClassName(c)))], ClassName(c);
    LastText(t);
    f, x, t := After(tgt, " tclass=", f, x, t);
    f, x, t := After(src, " tcontext=", f, x, t);
    NumberInFront(pid, " scontext=", f, x, t);
    assert [Uint(pid)] + x == ContextArgs(pid, src, tgt, c);
  }

  /** One more string in front. */
  lemma After(s: string, tail: string, f: string, x: seq<Arg>, t: string) returns (f': string, x': seq<Arg>, t': string)
    requires Prints(f, x, t) && '%' !in tail
    ensures f' == "%s" + tail + f && x' == [Str(Some(s))] + x && t' == s + (tail + t) && Prints(f', x', t')
  {
    hide Prints;
    StringInFront(s, tail, f, x, t);
    f', x', t' := "%s" + tail + f, [Str(Some(s))] + x, s + (tail + t);
  }

  lemma LastText(s: string)
    ensures Prints("%s", [Str(Some(s))], s)
  {
    PartText('s', Str(Some(s)), "");
    assert ['%', 's'] + "" == "%s" && s + "" == s;
  }

  lemma HeadText(perm: word, allowed: bool)
    ensures Prints(HEAD_FORMAT, HeadArgs(perm, allowed), LogHead(perm, allowed))
  {
    hide Prints, IfAsked;
    HeadSteps();
    var f, x, t := PermissionText(perm);
    f, x, t := After(if allowed then "allowed" else "denied", " { ", f, x, t);
    f, x, t := After(if allowed then "ALLOW" else "DENY", ": avc: ", f, x, t);
    assert x == HeadArgs(perm, allowed);
  }

  lemma PermissionText(perm: word) returns (f: string, x: seq<Arg>, t: string)
    ensures f == "%s%s%s%s } pid="
    ensures x == [Str(Some(IfAsked(perm, 1, "read "))), Str(Some(IfAsked(perm, 2, "write "))),
                  Str(Some(IfAsked(perm, 4, "exec "))), Str(Some(IfAsked(perm, 8, "create ")))]
    ensures t == IfAsked(perm, 1, "read ") + (IfAsked(perm, 2, "write ") + (IfAsked(perm, 4, "exec ") + (IfAsked(perm, 8, "create ") + " } pid=")))
    ensures Prints(f, x, t)
  {
    hide Prints, IfAsked;
    t := IfAsked(perm, 8, "create ");
    EndText(t, " } pid=");
    f, x, t := "%s } pid=", [Str(Some(t))], t + " } pid=";
    assert ['%', 's'] + " } pid=" == f;
    f, x, t := StringNext(IfAsked(perm, 4, "exec "), f, x, t);
    f, x, t := StringNext(IfAsked(perm, 2, "write "), f, x, t);
    f, x, t := StringNext(IfAsked(perm, 1, "read "), f, x, t);
    assert "%s" + ("%s" + ("%s" + "%s } pid=")) == "%s%s%s%s } pid=";
  }

  lemma EndText(s: string, tail: string)
    requires '%' !in tail
    ensures Prints(['%', 's'] + tail, [Str(Some(s))], s + tail)
  {
    PartText('s', Str(Some(s)), tail);
  }

  lemma StringNext(s: string, f: string, x: seq<Arg>, t: string) returns (f': string, x': seq<Arg>, t': string)
    requires Prints(f, x, t)
    ensures f' == "%s" + f && x' == [Str(Some(s))] + x && t' == s + t && Prints(f', x', t')
  {
    hide Prints;
    StringInFront(s, "", f, x, t);
    f', x', t' := "%s" + f, [Str(Some(s))] + x, s + t;
    assert "%s" + "" + f == f' && "" + t == t;
  }

  /** The message, in a buffer of 127 characters. */
  method Message(pid: word, src: string, tgt: string, c: byte, perm: word, allowed: bool) returns (message: string)
    ensures message == Cut(LogText(pid, src, tgt, c, perm, allowed), 126)
  {
    hide *;
    LogTextIs(pid, src, tgt, c, perm, allowed);
    var buf := new char[128];
    ghost var was := buf[..];
    var n := Snprintf.Snprintf(buf, 127, LOG_FORMAT, LogArgs(pid, src, tgt, c, perm, allowed));
    WroteText(was, buf[..], Cut(LogText(pid, src, tgt, c, perm, allowed), 126));
    message := buf[..n];
  }

  lemma WroteText(before: seq<char>, after: seq<char>, s: string)
    requires NumberText.Wrote(before, after, 0, s)
    ensures |s| <= |after| && after[..|s|] == s
  {
  }

  lemma RemovedIs(rules: seq<Rule>, i: nat, name: string)
    requires i <= |rules| && (forall k :: 0 <= k < i ==> rules[k].name != name) && (i < |rules| ==> rules[i].name == name)
    ensures FirstNamed(rules, name) == i
    ensures Removed(rules, name) == if i < |rules| then rules[..i] + rules[i + 1..] else rules
  {
  }

  lemma OneMore(rules: seq<Rule>, r: Rule, q: Request)
    ensures forall allow :: SomeRule(rules + [r], q, allow) <==> SomeRule(rules, q, allow) || (r.allow == allow && Matches(r, q))
  {
    hide Matches;
    forall x ensures x in rules + [r] <==> x in rules || x == r { }
    forall allow ensures SomeRule(rules + [r], q, allow) <==> SomeRule(rules, q, allow) || (r.allow == allow && Matches(r, q)) {
      if r.allow == allow && Matches(r, q) { assert r in rules + [r]; }
      if SomeRule(rules, q, allow) {
        var x :| x in rules && x.allow == allow && Matches(x, q);
        assert x in rules + [r];
      }
    }
  }

  /** The type a process is labelled with. */
  function TypeOf(t: seq<Labelled>, pid: word): Option<string> {
    match LabelOf(t, pid) case None => None case Some(l) => Some(l.kind)
  }

  /** It is the type of its label that the rules are asked about. */
  lemma TypeOfLabelled(t: seq<Labelled>, pid: word, l: Label)
    requires OnePerPid(t) && |t| < MAX_LABELS
    ensures TypeOf(Relabelled(t, pid, l), pid) == Some(l.kind)
    ensures (forall x :: x in t ==> x.pid != pid) ==> TypeOf(t, pid) == None
  {
    hide PidAt;
    LabelAfterSet(t, pid, l, pid);
    LabelIsAt(t, pid);
  }

  /** What a check writes to the log: nothing when the rules are not consulted. */
  ghost function Record(mode: byte, rules: seq<Rule>, source: Option<string>, target: string, c: byte, perm: word, pid: word, now: nat): seq<Entry> {
    if mode == MODE_DISABLED || source.None? then []
    else [NewEntry(now, pid, source.value, target, c, perm, Allowed(rules, Request(source.value, target, c, perm)))]
  }

  /** Exactly the decisions taken by the rules are logged, and what is logged is the decision, not
      the answer: in permissive mode an access that is not allowed goes ahead and is logged as
      denied. */
  lemma RecordIsDecision(mode: byte, rules: seq<Rule>, source: Option<string>, target: string, c: byte, perm: word, pid: word, now: nat)
    ensures var log := Record(mode, rules, source, target, c, perm, pid, now);
      && |log| == (if source.Some? && mode != 0 then 1 else 0)
      && (log != [] ==>
           && log[0].time == now && log[0].pid == pid && log[0].objectClass == c && log[0].perm == perm
           && (log[0].allowed <==> Allowed(rules, Request(source.value, target, c, perm)))
           && |log[0].message| <= 126 && log[0].message <= LogText(pid, source.value, target, c, perm, log[0].allowed)
           && (|source.value| <= 31 ==> log[0].source == source.value) && (|target| <= 31 ==> log[0].target == target))
    ensures source.Some? && !Allowed(rules, Request(source.value, target, c, perm)) ==>
      Granted(1, rules, source, target, c, perm) && !Record(1, rules, source, target, c, perm, pid, now)[0].allowed
  {
    hide Allowed, LogText;
  }
}
