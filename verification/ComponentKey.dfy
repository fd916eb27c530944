/** The table policies' fixed-width key: written by the benchmark, rebuilt by the policy for each component. */
module ComponentKey {
  import opened Wrappers
  import opened Sequences
  import opened NameHash

  const PASS: nat := 0
  const REDIRECT: nat := 1
  const HIDE: nat := 2

  const MAX_RULES: nat := 4096

  /** struct namei_ext_component_key; name has NAME_MAX bytes. */
  datatype Key = Key(
    event: nat, nameLen: nat, cgroupId: nat, parentDev: nat, parentIno: nat, name: seq<Byte>)

  /** struct namei_ext_redirect_rule; target has NAME_MAX bytes. */
  datatype Rule = Rule(action: nat, targetLen: nat, branch: nat, flags: nat, target: seq<Byte>)

  /** What a key stands for: a component with a name of any length. */
  datatype Component = Component(
    event: nat, cgroupId: nat, parentDev: nat, parentIno: nat, name: seq<Byte>)

  /** What an installed rule stands for. */
  datatype Redirection = Redirection(target: seq<Byte>, branch: nat)

  function Pad(s: seq<Byte>): (p: seq<Byte>)
    requires |s| <= NAME_MAX
    ensures |p| == NAME_MAX
  {
    s + seq(NAME_MAX - |s|, _ => 0)
  }

  function KeyOf(c: Component): Key
    requires |c.name| <= NAME_MAX
  {
    Key(c.event, |c.name|, c.cgroupId, c.parentDev, c.parentIno, Pad(c.name))
  }

  function RuleOf(r: Redirection): Rule
    requires |r.target| <= NAME_MAX
  {
    Rule(REDIRECT, |r.target|, r.branch, 0, Pad(r.target))
  }

  /** Padding loses nothing: a key stands for one component only. */
  lemma KeysAreFaithful(a: Component, b: Component)
    requires |a.name| <= NAME_MAX && |b.name| <= NAME_MAX && KeyOf(a) == KeyOf(b)
    ensures a == b
  {
    assert a.name == Pad(a.name)[..|a.name|] == Pad(b.name)[..|b.name|] == b.name;
  }

  // ---------- The writer ----------

  /** The bytes of s in a zeroed buffer. */
  method CopyPadded(s: seq<Byte>) returns (bytes: seq<Byte>)
    requires |s| <= NAME_MAX
    ensures bytes == Pad(s)
  {
    var buffer := new Byte[NAME_MAX](_ => 0);
    for i := 0 to |s|
      invariant buffer[..i] == s[..i]
      invariant forall k :: i <= k < NAME_MAX ==> buffer[k] == 0
    {
      buffer[i] := s[i];
    }
    bytes := buffer[..];
    assert bytes[..|s|] == s;
  }

  /** parent is the device and inode of the parent directory, unless stat failed. */
  method FillKey(event: nat, cgroupId: nat, parent: Option<(nat, nat)>, name: seq<Byte>) returns (r: Result<Key>)
    ensures r.Success? <==> |name| <= NAME_MAX && parent.Some?
    ensures r.Success? ==> r.value == KeyOf(Component(event, cgroupId, parent.value.0, parent.value.1, name))
  {
    if |name| > NAME_MAX || parent.None? {
      return Failure;
    }
    var bytes := CopyPadded(name);
    r := Success(Key(event, |name|, cgroupId, parent.value.0, parent.value.1, bytes));
  }

  method FillRule(target: seq<Byte>, branch: nat) returns (r: Result<Rule>)
    ensures r.Success? <==> |target| <= NAME_MAX
    ensures r.Success? ==> r.value == RuleOf(Redirection(target, branch))
  {
    if |target| > NAME_MAX {
      return Failure;
    }
    var bytes := CopyPadded(target);
    r := Success(Rule(REDIRECT, |target|, branch, 0, bytes));
  }

  /** One call of the writer. */
  datatype Install = Install(
    cgroupId: nat, event: nat, parent: Option<(nat, nat)>, name: seq<Byte>, target: seq<Byte>, branch: nat)
  {
    predicate Fits() {
      |name| <= NAME_MAX && parent.Some? && |target| <= NAME_MAX
    }

    function Subject(): Component
      requires parent.Some?
    {
      Component(event, cgroupId, parent.value.0, parent.value.1, name)
    }

    function Outcome(): Redirection {
      Redirection(target, branch)
    }
  }

  // ---------- The reference: a map keyed by components ----------

  /** What an install does to the reference: it fails when something is too long, missing, or the map is full. */
  function Apply(m: map<Component, Redirection>, c: Install): map<Component, Redirection> {
    if c.Fits() && (c.Subject() in m || |m| < MAX_RULES) then m[c.Subject() := c.Outcome()] else m
  }

  function ApplyAll(cs: seq<Install>): map<Component, Redirection> {
    if cs == [] then map[] else Apply(ApplyAll(cs[..|cs| - 1]), cs[|cs| - 1])
  }

  ghost predicate ShortNames(m: map<Component, Redirection>) {
    forall c :: c in m ==> |c.name| <= NAME_MAX && |m[c].target| <= NAME_MAX
  }

  /** The fixed-width table holds exactly the rules of the reference map. */
  ghost predicate Agrees(entries: map<Key, Rule>, m: map<Component, Redirection>) {
    && ShortNames(m)
    && (forall k :: k in entries <==> HasKey(m, k))
    && (forall c :: c in m ==> KeyOf(c) in entries && entries[KeyOf(c)] == RuleOf(m[c]))
  }

  ghost predicate AllShort(s: set<Component>) {
    forall c :: c in s ==> |c.name| <= NAME_MAX
  }

  ghost function KeysOf(s: set<Component>): set<Key>
    requires AllShort(s)
  {
    set c | c in s :: KeyOf(c)
  }

  lemma {:induction false} KeysOfSize(s: set<Component>)
    requires AllShort(s)
    ensures |KeysOf(s)| == |s|
    decreases |s|
  {
    hide KeyOf;
    if s == {} {
      assert KeysOf(s) == {};
    } else {
      var c :| c in s;
      KeysOfSize(s - {c});
      KeyIsNew(s, c);
      assert KeysOf(s) == KeysOf(s - {c}) + {KeyOf(c)};
    }
  }

  lemma KeyIsNew(s: set<Component>, c: Component)
    requires AllShort(s) && c in s
    ensures KeyOf(c) !in KeysOf(s - {c})
  {
    hide KeyOf;
    forall d | d in s - {c} ensures KeyOf(d) != KeyOf(c) {
      if KeyOf(d) == KeyOf(c) {
        KeysAreFaithful(c, d);
        assert false;
      }
    }
  }

  lemma SameSize(entries: map<Key, Rule>, m: map<Component, Redirection>)
    requires Agrees(entries, m)
    ensures |entries| == |m|
  {
    hide KeyOf, RuleOf;
    KeysOfSize(m.Keys);
    assert entries.Keys == KeysOf(m.Keys);
    assert |entries| == |entries.Keys| && |m| == |m.Keys|;
  }

  lemma AgreesAfter(entries: map<Key, Rule>, m: map<Component, Redirection>, c: Component, r: Redirection)
    requires Agrees(entries, m) && |c.name| <= NAME_MAX && |r.target| <= NAME_MAX
    ensures Agrees(entries[KeyOf(c) := RuleOf(r)], m[c := r])
    ensures KeyOf(c) in entries <==> c in m
  {
    hide KeyOf, RuleOf;
    if KeyOf(c) in entries {
      var d :| d in m && KeyOf(d) == KeyOf(c);
      KeysAreFaithful(c, d);
    }
    var next := entries[KeyOf(c) := RuleOf(r)];
    forall d | d in m[c := r] ensures KeyOf(d) in next && next[KeyOf(d)] == RuleOf(m[c := r][d]) {
      if KeyOf(d) == KeyOf(c) {
        KeysAreFaithful(c, d);
      }
    }
  }

  /** Some component of m has key k. */
  ghost predicate HasKey(m: map<Component, Redirection>, k: Key)
    requires ShortNames(m)
  {
    exists d :: d in m && KeyOf(d) == k
  }

  /** A BPF hash map of MAX_RULES entries. */
  class RuleTable {
    var entries: map<Key, Rule>

    constructor ()
      ensures entries == map[]
    {
      entries := map[];
    }

    /** bpf_map_update_elem with BPF_ANY. */
    method Update(key: Key, rule: Rule) returns (ok: bool)
      modifies this
      ensures ok <==> key in old(entries) || |old(entries)| < 4096
      ensures entries == if ok then old(entries)[key := rule] else old(entries)
    {
      ok := key in entries || |entries| < MAX_RULES;
      if ok {
        entries := entries[key := rule];
      }
    }

    /** An install changes the table as it changes the reference, and succeeds exactly when that does. */
    method UpdateRedirectRule(c: Install, ghost m: map<Component, Redirection>) returns (ok: bool)
      requires Agrees(entries, m)
      modifies this
      ensures Agrees(entries, Apply(m, c))
      ensures ok <==> c.Fits() && (c.Subject() in m || |m| < MAX_RULES)
    {
      hide Agrees, KeyOf, RuleOf;
      var key := FillKey(c.event, c.cgroupId, c.parent, c.name);
      if key.Failure? {
        return false;
      }
      var rule := FillRule(c.target, c.branch);
      if rule.Failure? {
        return false;
      }
      SameSize(entries, m);
      AgreesAfter(entries, m, c.Subject(), c.Outcome());
      ok := Update(key.value, rule.value);
    }
  }

  /** Over any sequence of installs the table agrees with the reference map. */
  method RunInstalls(cs: seq<Install>) returns (table: RuleTable)
    ensures fresh(table) && Agrees(table.entries, ApplyAll(cs))
  {
    table := new RuleTable();
    assert Agrees(table.entries, map[]);
    for i := 0 to |cs|
      invariant fresh(table) && Agrees(table.entries, ApplyAll(cs[..i]))
    {
      assert cs[..i + 1][..i] == cs[..i];
      var ok := table.UpdateRedirectRule(cs[i], ApplyAll(cs[..i]));
    }
    assert cs[..|cs|] == cs;
  }

  /** i is the last install for c in cs that could be stored. */
  ghost predicate IsLastFor(cs: seq<Install>, i: nat, c: Component) {
    && i < |cs| && cs[i].Fits() && cs[i].Subject() == c
    && forall j :: i < j < |cs| && cs[j].Fits() ==> cs[j].Subject() != c
  }

  /** A component's rule is that of the last install for it. */
  lemma {:induction false} LastInstallWins(cs: seq<Install>, c: Component)
    requires c in ApplyAll(cs)
    ensures exists i: nat :: IsLastFor(cs, i, c) && ApplyAll(cs)[c] == cs[i].Outcome()
  {
    var m := |cs| - 1;
    var last, before := cs[m], ApplyAll(cs[..m]);
    if last.Fits() && last.Subject() == c {
      assert IsLastFor(cs, m, c);
    } else {
      LastInstallWins(cs[..m], c);
      var i: nat :| IsLastFor(cs[..m], i, c) && before[c] == cs[..m][i].Outcome();
      LastForLonger(cs, i, c);
    }
  }

  lemma LastForLonger(cs: seq<Install>, i: nat, c: Component)
    requires cs != [] && IsLastFor(cs[..|cs| - 1], i, c)
    requires cs[|cs| - 1].Fits() ==> cs[|cs| - 1].Subject() != c
    ensures IsLastFor(cs, i, c)
  {
    var m := |cs| - 1;
    forall j | i < j < |cs| && cs[j].Fits() ensures cs[j].Subject() != c {
      assert j < m ==> cs[..m][j] == cs[j];
    }
  }

  /** The components that some install of cs could store a rule for. */
  ghost function Subjects(cs: seq<Install>): set<Component> {
    if cs == [] then {}
    else
      var last := cs[|cs| - 1];
      Subjects(cs[..|cs| - 1]) + if last.Fits() then {last.Subject()} else {}
  }

  lemma {:induction false} StoredAreSubjects(cs: seq<Install>)
    ensures ApplyAll(cs).Keys <= Subjects(cs)
    ensures |ApplyAll(cs)| <= MAX_RULES
  {
    if cs != [] {
      StoredAreSubjects(cs[..|cs| - 1]);
    }
  }

  /** Every install that fits stays findable exactly when the installs are for at most as many components as fit. */
  lemma {:induction false} FittingInstallsAreKept(cs: seq<Install>)
    ensures ApplyAll(cs).Keys == Subjects(cs) <==> |Subjects(cs)| <= 4096
  {
    StoredAreSubjects(cs);
    assert |ApplyAll(cs).Keys| == |ApplyAll(cs)|;
    if cs != [] && |Subjects(cs)| <= MAX_RULES {
      var m := |cs| - 1;
      var before, last := ApplyAll(cs[..m]), cs[m];
      SubsetSize(Subjects(cs[..m]), Subjects(cs));
      FittingInstallsAreKept(cs[..m]);
      assert before.Keys == Subjects(cs[..m]) && |before| == |before.Keys|;
      if last.Fits() && last.Subject() !in before {
        assert Subjects(cs) == Subjects(cs[..m]) + {last.Subject()};
        assert |before| < MAX_RULES;
      }
    }
  }

  // ---------- The reader ----------

  /** struct bpf_namei_ext_ctx, as far as the table policies use it. */
  class Context {
    var event: nat
    var nameLen: nat
    var cgroupId: nat
    var parentDev: nat
    var parentIno: nat
    const name: array<Byte>
    var redirectNameLen: nat
    const redirectName: array<Byte>

    ghost predicate Valid()
      reads this
    {
      name.Length == NAME_MAX && redirectName.Length == NAME_MAX && name != redirectName
    }

    /** The bytes of the name that are there. */
    function Name(): seq<Byte>
      requires name.Length == NAME_MAX
      reads this, name
    {
      name[..Least(nameLen, NAME_MAX)]
    }

    function Subject(): Component
      requires name.Length == NAME_MAX
      reads this, name
    {
      Component(event, cgroupId, parentDev, parentIno, Name())
    }

    method BuildComponentKey() returns (key: Key)
      requires Valid()
      ensures key == Key(event, nameLen, cgroupId, parentDev, parentIno, Pad(Name()))
    {
      var buffer := new Byte[NAME_MAX](_ => 0);
      for i := 0 to NAME_MAX
        invariant forall k :: 0 <= k < i ==> buffer[k] == if k < nameLen then name[k] else 0
      {
        buffer[i] := if i < nameLen then name[i] else 0;
      }
      key := Key(event, nameLen, cgroupId, parentDev, parentIno, buffer[..]);
    }

    /** Whether the name is the given literal; only its first NAME_MAX bytes are compared. */
    method NameIs(literal: seq<Byte>) returns (same: bool)
      requires Valid()
      ensures same <==> nameLen == |literal| && Name() == literal[..Least(|literal|, NAME_MAX)]
    {
      if nameLen != |literal| {
        return false;
      }
      for i := 0 to NAME_MAX
        invariant forall k :: 0 <= k < i && k < |literal| ==> name[k] == literal[k]
      {
        if i >= |literal| {
          break;
        }
        if name[i] != literal[i] {
          assert Name()[i] != literal[..Least(|literal|, NAME_MAX)][i];
          return false;
        }
      }
      same := true;
    }

    /** The redirect name's first len bytes become those of target; the bytes after them stay. */
    method SetRedirect(target: seq<Byte>, len: nat)
      requires Valid() && Least(len, NAME_MAX) <= |target|
      modifies this`redirectNameLen, redirectName
      ensures redirectNameLen == len
      ensures redirectName[..] == target[..Least(len, NAME_MAX)] + old(redirectName[..])[Least(len, NAME_MAX)..]
    {
      redirectNameLen := len;
      for i := 0 to NAME_MAX
        invariant redirectNameLen == len
        invariant forall k :: 0 <= k < i && k < len ==> redirectName[k] == target[k]
        invariant forall k :: 0 <= k < NAME_MAX && (k >= i || k >= len) ==> redirectName[k] == old(redirectName[k])
      {
        if i < len {
          redirectName[i] := target[i];
        }
      }
    }

    method ApplyRule(rule: Option<Rule>) returns (action: nat)
      requires Valid() && (rule.Some? ==> |rule.value.target| == NAME_MAX)
      modifies this`redirectNameLen, redirectName
      ensures action == if rule.Some? && rule.value.action in {1, 2} then rule.value.action else 0
      ensures if action == 1 then
                var n := Least(rule.value.targetLen, NAME_MAX);
                && redirectNameLen == rule.value.targetLen
                && redirectName[..] == rule.value.target[..n] + old(redirectName[..])[n..]
              else redirectNameLen == old(redirectNameLen) && redirectName[..] == old(redirectName[..])
    {
      if rule.None? {
        return PASS;
      }
      if rule.value.action == HIDE {
        return HIDE;
      }
      if rule.value.action != REDIRECT {
        return PASS;
      }
      SetRedirect(rule.value.target, rule.value.targetLen);
      action := REDIRECT;
    }

    /**
      The policy on a table that agrees with the reference m: it redirects to the bytes installed for this very
      component, and passes when there are none.
     */
    method TableRedirect(table: RuleTable, ghost m: map<Component, Redirection>) returns (action: nat)
      requires Valid() && Agrees(table.entries, m)
      modifies this`redirectNameLen, redirectName
      ensures if nameLen <= NAME_MAX && Subject() in m then
                var target := m[Subject()].target;
                && action == REDIRECT && redirectNameLen == |target| <= NAME_MAX
                && redirectName[..] == target + old(redirectName[..])[|target|..]
              else
                && action == PASS
                && redirectNameLen == old(redirectNameLen) && redirectName[..] == old(redirectName[..])
    {
      var key := BuildComponentKey();
      KeyFindsComponent(table.entries, m, key, Subject());
      var rule := if key in table.entries then Some(table.entries[key]) else None;
      action := ApplyRule(rule);
    }
  }

  /** The reader's key is in the table exactly when its component is in the reference, with that rule. */
  lemma KeyFindsComponent(entries: map<Key, Rule>, m: map<Component, Redirection>, key: Key, c: Component)
    requires Agrees(entries, m) && |c.name| <= NAME_MAX && |c.name| <= key.nameLen
    requires key == KeyOf(c).(nameLen := key.nameLen)
    requires key.nameLen <= NAME_MAX ==> key.nameLen == |c.name|
    ensures key in entries <==> key.nameLen <= NAME_MAX && c in m
    ensures key in entries ==> entries[key] == RuleOf(m[c])
    ensures key in entries ==> |entries[key].target| == NAME_MAX && |m[c].target| <= NAME_MAX
  {
    if key in entries {
      var d :| d in m && KeyOf(d) == key;
      KeysAreFaithful(c, d);
    }
  }

  // ---------- Writer and reader together ----------

  /** The install call c is for this event, cgroup, parent directory and name, and nothing in it is too long. */
  predicate StoresFor(c: Install, event: nat, cgroupId: nat, dev: nat, ino: nat, name: seq<Byte>) {
    && |c.name| <= 64 && |c.target| <= 64
    && c.event == event && c.cgroupId == cgroupId && c.parent == Some((dev, ino)) && c.name == name
  }

  /** The i-th call is the last one that is for this event, cgroup, parent directory and name. */
  ghost predicate StoresLast(cs: seq<Install>, i: nat, event: nat, cgroupId: nat, dev: nat, ino: nat, name: seq<Byte>) {
    && i < |cs| && StoresFor(cs[i], event, cgroupId, dev, ino, name)
    && forall j :: i < j < |cs| ==> !StoresFor(cs[j], event, cgroupId, dev, ino, name)
  }

  lemma StoresForFits(c: Install, event: nat, cgroupId: nat, dev: nat, ino: nat, name: seq<Byte>)
    ensures StoresFor(c, event, cgroupId, dev, ino, name) <==>
              c.Fits() && c.Subject() == Component(event, cgroupId, dev, ino, name)
  {
  }

  /** The components a rule can be stored for are those that some install is for. */
  lemma {:induction false} SubjectsAreStored(
    cs: seq<Install>, event: nat, cgroupId: nat, dev: nat, ino: nat, name: seq<Byte>)
    ensures Component(event, cgroupId, dev, ino, name) in Subjects(cs) <==>
              exists i: nat :: StoresLast(cs, i, event, cgroupId, dev, ino, name)
  {
    if cs != [] {
      var m := |cs| - 1;
      var before := cs[..m];
      SubjectsAreStored(before, event, cgroupId, dev, ino, name);
      StoresForFits(cs[m], event, cgroupId, dev, ino, name);
      if StoresFor(cs[m], event, cgroupId, dev, ino, name) {
        assert StoresLast(cs, m, event, cgroupId, dev, ino, name);
      } else {
        forall i: nat
          ensures StoresLast(cs, i, event, cgroupId, dev, ino, name) <==>
                    StoresLast(before, i, event, cgroupId, dev, ino, name)
        {
          StoresLastLonger(cs, i, event, cgroupId, dev, ino, name);
        }
      }
    }
  }

  lemma StoresLastLonger(cs: seq<Install>, i: nat, event: nat, cgroupId: nat, dev: nat, ino: nat, name: seq<Byte>)
    requires cs != [] && !StoresFor(cs[|cs| - 1], event, cgroupId, dev, ino, name)
    ensures StoresLast(cs, i, event, cgroupId, dev, ino, name) <==>
              StoresLast(cs[..|cs| - 1], i, event, cgroupId, dev, ino, name)
  {
    hide StoresFor;
    var m := |cs| - 1;
    assert forall j :: 0 <= j < m ==> cs[..m][j] == cs[j];
  }

  lemma LastForStores(cs: seq<Install>, i: nat, event: nat, cgroupId: nat, dev: nat, ino: nat, name: seq<Byte>)
    ensures IsLastFor(cs, i, Component(event, cgroupId, dev, ino, name)) <==>
              StoresLast(cs, i, event, cgroupId, dev, ino, name)
  {
    forall j | 0 <= j < |cs|
      ensures StoresFor(cs[j], event, cgroupId, dev, ino, name) <==>
                cs[j].Fits() && cs[j].Subject() == Component(event, cgroupId, dev, ino, name)
    {
      StoresForFits(cs[j], event, cgroupId, dev, ino, name);
    }
  }

  /** While rules for at most 4096 components are stored, the reference holds the last install of each. */
  lemma StoredRule(cs: seq<Install>, event: nat, cgroupId: nat, dev: nat, ino: nat, name: seq<Byte>)
    requires |Subjects(cs)| <= 4096
    ensures var c, m := Component(event, cgroupId, dev, ino, name), ApplyAll(cs);
            && (c in m <==> exists i: nat :: StoresLast(cs, i, event, cgroupId, dev, ino, name))
            && (c in m ==> forall i: nat :: StoresLast(cs, i, event, cgroupId, dev, ino, name) ==>
                                              m[c] == Redirection(cs[i].target, cs[i].branch))
  {
    hide Subjects, ApplyAll, StoresLast;
    var c, m := Component(event, cgroupId, dev, ino, name), ApplyAll(cs);
    FittingInstallsAreKept(cs);
    SubjectsAreStored(cs, event, cgroupId, dev, ino, name);
    assert c in m <==> c in m.Keys;
    if c in m {
      LastInstallWins(cs, c);
      var j: nat :| IsLastFor(cs, j, c) && m[c] == cs[j].Outcome();
      LastForStores(cs, j, event, cgroupId, dev, ino, name);
      forall i: nat | StoresLast(cs, i, event, cgroupId, dev, ino, name) ensures i == j {
        OneLast(cs, i, j, event, cgroupId, dev, ino, name);
      }
    }
  }

  lemma OneLast(cs: seq<Install>, i: nat, j: nat, event: nat, cgroupId: nat, dev: nat, ino: nat, name: seq<Byte>)
    requires StoresLast(cs, i, event, cgroupId, dev, ino, name)
    requires StoresLast(cs, j, event, cgroupId, dev, ino, name)
    ensures i == j
  {
  }

  /**
    After any installs for at most 4096 components, the policy redirects (1) exactly when some install is for this
    event, cgroup, parent and name, and then to the target of the last such install; otherwise it passes (0) and leaves
    the context alone.
   */
  method RedirectAfterInstalls(cs: seq<Install>, ctx: Context) returns (action: nat)
    requires ctx.Valid() && |Subjects(cs)| <= 4096
    modifies ctx`redirectNameLen, ctx.redirectName
    ensures action == 0 || action == 1
    ensures action == 1 <==>
              && ctx.nameLen <= 64
              && exists i: nat ::
                   StoresLast(cs, i, ctx.event, ctx.cgroupId, ctx.parentDev, ctx.parentIno, ctx.name[..ctx.nameLen])
    ensures action == 1 ==>
              forall i: nat ::
                StoresLast(cs, i, ctx.event, ctx.cgroupId, ctx.parentDev, ctx.parentIno, ctx.name[..ctx.nameLen]) ==>
                  && ctx.redirectNameLen == |cs[i].target| <= 64
                  && ctx.redirectName[..] == cs[i].target + old(ctx.redirectName[..])[|cs[i].target|..]
    ensures action == 0 ==>
              ctx.redirectNameLen == old(ctx.redirectNameLen) && ctx.redirectName[..] == old(ctx.redirectName[..])
  {
    hide Agrees, ApplyAll, Subjects, StoresLast;
    ghost var c := ctx.Subject();
    StoredRule(cs, ctx.event, ctx.cgroupId, ctx.parentDev, ctx.parentIno, c.name);
    var table := RunInstalls(cs);
    action := ctx.TableRedirect(table, ApplyAll(cs));
    assert ctx.Subject() == c;
  }
}
