/** When exactly the resolver's reading of a written description is what it says. */
module MainTfExact {
  import opened Text
  import opened HclFields
  import opened Topology
  import opened MainTf
  import opened MainTfMeaning

  // ----- what disturbs the reading -----

  /** The last value of a name that is read in one item. */
  function ReadIn(item: Item, n: string): Option<string> { LastValue(ItemRead(item), n) }

  /** The module's own value of a name. */
  function OwnValue(items: seq<Item>, n: string): Option<string> { LastValue(Said(items), n) }

  /** A value of the name is read in the `i`-th item. */
  predicate Brings(items: seq<Item>, n: string, i: nat) {
    i < |items| && ReadIn(items[i], n).Some?
  }

  /** The module has the name, but no value of it is read anywhere: a comment stands
      behind it. */
  predicate Lost(items: seq<Item>, n: string) {
    OwnValue(items, n).Some? && forall i | 0 <= i < |items| :: ReadIn(items[i], n) == None
  }

  /** `vmid_start` counts by its number, and without nodes by being one. */
  predicate SameValue(n: string, a: Option<string>, b: Option<string>, noNodes: bool) {
    a == b || (n == "vmid_start" && a.Some? && b.Some? && ToInt(a.value).Some? && (noNodes || ToInt(a.value) == ToInt(b.value)))
  }

  /** The `i`-th item is the last one in which a value of the name is read, and it is
      another than the module's own. */
  predicate Overrides(items: seq<Item>, noNodes: bool, n: string, i: nat) {
    && Brings(items, n, i)
    && (forall j | i < j < |items| :: ReadIn(items[j], n) == None)
    && !SameValue(n, ReadIn(items[i], n), OwnValue(items, n), noNodes)
  }

  /** The `i`-th item is the first block of the name, commented out or not, and its
      first count, commented out or not, is another than the declared one. */
  predicate HidesCount(items: seq<Item>, child: string, i: nat) {
    && i < |items| && IsBlock(items[i], child)
    && (forall j | 0 <= j < i :: !IsBlock(items[j], child))
    && BlockCount(items[i].lines, true) != CountOf(items, child, false)
  }

  predicate DeclaresNone(d: Description) { Meaning(d).Ok? && Meaning(d).value.nodes == [] }

  /** No block and no comment changes what the description says. Of a complete one, no
      needed value is lost or overridden and no count hidden; of one that lacks a field,
      none needed before it is lost and nothing brings it; of one with an unreadable
      number, nothing is lost and that text stays. */
  ghost predicate Undisturbed(d: Description) {
    var items := AllItems(d);
    match Meaning(d)
    case Ok(_) =>
      && (forall n | n in NEEDED :: !Lost(items, n))
      && (forall n, i: nat | n in NEEDED :: !Overrides(items, DeclaresNone(d), n, i))
      && (forall i: nat :: !HidesCount(items, "control_plane", i))
      && (forall i: nat :: !HidesCount(items, "workers", i))
    case Err(MissingField(m)) =>
      && (forall k: nat | NeededBefore(k, m) :: !Lost(items, NEEDED[k]))
      && (forall i: nat :: !Brings(items, m, i))
    case Err(_) =>
      && (forall n | n in NEEDED :: !Lost(items, n))
      && (forall i: nat :: !Overrides(items, false, "vmid_start", i))
  }

  predicate NeededBefore(k: nat, m: string) {
    k < |NEEDED| && exists l | k < l < |NEEDED| :: NEEDED[l] == m
  }

  // ----- the last holder of a name -----

  lemma {:induction false} LastValueAppend(a: seq<ModuleField>, b: seq<ModuleField>, n: string)
    ensures LastValue(a + b, n) == if LastValue(b, n).Some? then LastValue(b, n) else LastValue(a, n)
    decreases |b|
  {
    if b == [] {
      assert a + b == a;
    } else {
      var init := b[..|b| - 1];
      assert (a + b)[..|a + b| - 1] == a + init;
      LastValueAppend(a, init, n);
    }
  }

  lemma {:induction false} Shift<T>(a: seq<T>, b: seq<T>, c: seq<T>)
    ensures a + (b + c) == (a + b) + c
  {
  }

  lemma {:induction false} ReadOfLast(items: seq<Item>, last: Item)
    ensures Read(items + [last]) == Read(items) + ItemRead(last)
    decreases |items|
  {
    hide ItemRead;
    if items == [] {
      assert items + [last] == [last] && [last][1..] == [] && Read([]) == [];
    } else {
      assert (items + [last])[1..] == items[1..] + [last];
      ReadOfLast(items[1..], last);
      Shift(ItemRead(items[0]), Read(items[1..]), ItemRead(last));
    }
  }

  lemma {:induction false} SaidOfLast(items: seq<Item>, last: Item)
    ensures Said(items + [last]) == Said(items) + ItemSaid(last)
    decreases |items|
  {
    hide ItemSaid;
    if items == [] {
      assert items + [last] == [last] && [last][1..] == [] && Said([]) == [];
    } else {
      assert (items + [last])[1..] == items[1..] + [last];
      SaidOfLast(items[1..], last);
      Shift(ItemSaid(items[0]), Said(items[1..]), ItemSaid(last));
    }
  }

  /** The value read is that of the last item in which there is one. */
  lemma {:induction false} LastHolder(items: seq<Item>, n: string) returns (i: int)
    ensures -1 <= i < |items|
    ensures forall j | i < j < |items| :: ReadIn(items[j], n) == None
    ensures if i == -1 then LastValue(Read(items), n) == None
            else ReadIn(items[i], n).Some? && LastValue(Read(items), n) == ReadIn(items[i], n)
    decreases |items|
  {
    hide ItemRead;
    if items == [] {
      i := -1;
    } else {
      var k := |items| - 1;
      var init, last := items[..k], items[k];
      assert items == init + [last];
      ReadOfLast(init, last);
      LastValueAppend(Read(init), ItemRead(last), n);
      hide Read, LastValue;
      if ReadIn(last, n).Some? {
        i := k;
      } else {
        i := LastHolder(init, n);
      }
    }
  }

  lemma {:induction false} ReadUnlessOverridden(items: seq<Item>, n: string, noNodes: bool)
    requires OwnValue(items, n).Some?
    ensures SameValue(n, LastValue(Read(items), n), OwnValue(items, n), noNodes) <==>
            !Lost(items, n) && forall i: nat :: !Overrides(items, noNodes, n, i)
    ensures LastValue(Read(items), n) == None <==> Lost(items, n)
  {
    var i := LastHolder(items, n);
    hide OwnValue, ReadIn, Read, LastValue, ToInt;
    if i >= 0 && !SameValue(n, LastValue(Read(items), n), OwnValue(items, n), noNodes) {
      assert Overrides(items, noNodes, n, i);
    }
    forall k: nat | Overrides(items, noNodes, n, k)
      ensures k == i && !SameValue(n, LastValue(Read(items), n), OwnValue(items, n), noNodes)
    {
      assert !(k < i) && !(i < k);
    }
  }

  lemma {:induction false} MissingUnlessBrought(items: seq<Item>, n: string)
    ensures LastValue(Read(items), n) == None <==> forall i: nat :: !Brings(items, n, i)
  {
    var i := LastHolder(items, n);
    hide ReadIn, Read, LastValue;
    if i >= 0 { assert Brings(items, n, i); }
  }

  // ----- the counts -----

  lemma {:induction false} FirstBlockAt(items: seq<Item>, child: string) returns (i: int)
    ensures -1 <= i < |items|
    ensures forall j | 0 <= j < (if i == -1 then |items| else i) :: !IsBlock(items[j], child)
    ensures i >= 0 ==> IsBlock(items[i], child) && FirstBlock(items, child, true) == Some(items[i].lines)
    ensures i == -1 ==> FirstBlock(items, child, true) == None && FirstBlock(items, child, false) == None
    decreases |items|
  {
    if items == [] {
      i := -1;
    } else if IsBlock(items[0], child) {
      i := 0;
    } else {
      var k := FirstBlockAt(items[1..], child);
      i := if k == -1 then -1 else k + 1;
      assert forall j | 1 <= j < |items| :: items[j] == items[1..][j - 1];
    }
  }

  lemma {:induction false} CountUnlessHidden(items: seq<Item>, child: string)
    ensures CountOf(items, child, true) == CountOf(items, child, false) <==> forall i: nat :: !HidesCount(items, child, i)
  {
    var i := FirstBlockAt(items, child);
    hide FirstBlock, BlockCount;
    if i >= 0 && CountOf(items, child, true) != CountOf(items, child, false) { assert HidesCount(items, child, i); }
    forall k: nat | HidesCount(items, child, k) ensures CountOf(items, child, true) != CountOf(items, child, false) {
      assert !(k < i) && !(i < k);
    }
  }

  // ----- assembling -----

  lemma {:induction false} NeededNames()
    ensures forall i, j | 0 <= i < j < 6 :: NEEDED[i] != NEEDED[j]
    ensures forall i | 0 <= i < 6 :: NEEDED[i] in NEEDED
  {
    assert |NEEDED[0]| == 12 && |NEEDED[1]| == 8 && |NEEDED[2]| == 8 && |NEEDED[3]| == 11 && |NEEDED[4]| == 11 && |NEEDED[5]| == 10;
    assert NEEDED[1][0] == 'p' && NEEDED[2][0] == 's' && NEEDED[3][0] == 'c' && NEEDED[4][0] == 'v';
  }

  lemma {:induction false} SameStart(name: string, start: int, start': int, cp: nat, workers: nat)
    ensures DeclaredNodes(name, start, cp, workers) == DeclaredNodes(name, start', cp, workers) <==>
            start == start' || cp + workers == 0
  {
    DeclaredNodesShape(name, start, cp, workers);
    DeclaredNodesShape(name, start', cp, workers);
    hide CpNode, WorkerNode;
    if cp + workers > 0 {
      var r, r' := DeclaredNodes(name, start, cp, workers), DeclaredNodes(name, start', cp, workers);
      assert r[0].vmid == start && r'[0].vmid == start';
    }
  }

  /** Against a complete reading. */
  lemma {:induction false} AssembledAlike(a: seq<ModuleField>, b: seq<ModuleField>, cp: nat, workers: nat, cp': nat, workers': nat,
                                          noNodes: bool)
    requires Assemble(b, cp', workers').Ok? && (noNodes <==> cp' + workers' == 0)
    ensures Assemble(a, cp, workers) == Assemble(b, cp', workers') <==>
            && cp == cp' && workers == workers'
            && forall n | n in NEEDED :: SameValue(n, LastValue(a, n), LastValue(b, n), noNodes)
  {
    hide ToInt;
    hide LastValue;
    hide DeclaredNodes;
    assert NEEDED[0] in NEEDED && NEEDED[1] in NEEDED && NEEDED[2] in NEEDED;
    assert NEEDED[3] in NEEDED && NEEDED[4] in NEEDED && NEEDED[5] in NEEDED;
    assert NEEDED[0][0] == 'c' && NEEDED[1][0] == 'p' && NEEDED[2][0] == 's' && NEEDED[3][0] == 'c';
    assert NEEDED[4][1] == 'n' && NEEDED[5][..2] == ['v', 'm'];
    var start := LastValue(a, NEEDED[5]);
    if start.Some? && ToInt(start.value).Some? {
      var name := LastValue(b, NEEDED[0]).value;
      SameStart(name, ToInt(start.value).value, ToInt(LastValue(b, NEEDED[5]).value).value, cp', workers');
    }
  }

  ghost predicate AllBefore(fields: seq<ModuleField>, m: string) {
    forall k: nat | NeededBefore(k, m) :: LastValue(fields, NEEDED[k]).Some?
  }

  lemma {:induction false} Spelled()
    ensures NEEDED == ["cluster_name", "pod_cidr", "svc_cidr", "cluster_dns", "vnet_bridge", "vmid_start"]
  {
  }

  lemma {:induction false} MissingAt(fields: seq<ModuleField>, cp: nat, workers: nat, k: nat)
    requires k < |NEEDED| && LastValue(fields, NEEDED[k]) == None
    requires forall j | 0 <= j < k :: LastValue(fields, NEEDED[j]).Some?
    ensures Assemble(fields, cp, workers) == Err(MissingField(NEEDED[k]))
  {
    Spelled();
    hide ToInt, LastValue, DeclaredNodes;
    assert k > 0 ==> LastValue(fields, NEEDED[0]).Some?;
    assert k > 1 ==> LastValue(fields, NEEDED[1]).Some?;
    assert k > 2 ==> LastValue(fields, NEEDED[2]).Some?;
    assert k > 3 ==> LastValue(fields, NEEDED[3]).Some?;
    assert k > 4 ==> LastValue(fields, NEEDED[4]).Some?;
  }

  lemma {:induction false} NoneMissing(fields: seq<ModuleField>, cp: nat, workers: nat)
    requires forall k | 0 <= k < |NEEDED| :: LastValue(fields, NEEDED[k]).Some?
    ensures LastValue(fields, "vmid_start").Some?
    ensures var text := LastValue(fields, "vmid_start").value;
      if ToInt(text) == None then Assemble(fields, cp, workers) == Err(BadInteger(text)) else Assemble(fields, cp, workers).Ok?
  {
    Spelled();
    hide ToInt, LastValue, DeclaredNodes;
    assert LastValue(fields, NEEDED[0]).Some? && LastValue(fields, NEEDED[1]).Some? && LastValue(fields, NEEDED[2]).Some?;
    assert LastValue(fields, NEEDED[3]).Some? && LastValue(fields, NEEDED[4]).Some? && LastValue(fields, NEEDED[5]).Some?;
  }

  lemma {:induction false} FirstMissing(fields: seq<ModuleField>, i: nat) returns (k: nat)
    requires i <= |NEEDED| && forall j | 0 <= j < i :: LastValue(fields, NEEDED[j]).Some?
    ensures i <= k <= |NEEDED| && (k < |NEEDED| ==> LastValue(fields, NEEDED[k]) == None)
    ensures forall j | 0 <= j < k :: LastValue(fields, NEEDED[j]).Some?
    decreases |NEEDED| - i
  {
    hide NEEDED, LastValue;
    if i == |NEEDED| || LastValue(fields, NEEDED[i]) == None { k := i; } else { k := FirstMissing(fields, i + 1); }
  }

  /** The error is the first missing field. */
  lemma {:induction false} MissingExactly(fields: seq<ModuleField>, cp: nat, workers: nat, m: string)
    ensures Assemble(fields, cp, workers) == Err(MissingField(m)) <==>
            m in NEEDED && LastValue(fields, m) == None && AllBefore(fields, m)
  {
    NeededNames();
    assert |NEEDED| == 6;
    hide NEEDED, Assemble, LastValue, ToInt;
    var k := FirstMissing(fields, 0);
    if k == 6 {
      NoneMissing(fields, cp, workers);
    } else {
      MissingAt(fields, cp, workers, k);
      if m in NEEDED && LastValue(fields, m) == None && AllBefore(fields, m) {
        var l :| 0 <= l < 6 && NEEDED[l] == m;
        assert k < l ==> NeededBefore(k, m);
        assert l == k;
      }
    }
  }

  /** And only a complete reading has an unreadable number. */
  lemma {:induction false} BadExactly(fields: seq<ModuleField>, cp: nat, workers: nat, text: string)
    ensures Assemble(fields, cp, workers) == Err(BadInteger(text)) <==>
            && (forall n | n in NEEDED :: LastValue(fields, n).Some?)
            && LastValue(fields, "vmid_start") == Some(text) && ToInt(text) == None
  {
    hide NEEDED, Assemble, LastValue, ToInt;
    var k := FirstMissing(fields, 0);
    if k == |NEEDED| {
      NoneMissing(fields, cp, workers);
    } else {
      MissingAt(fields, cp, workers, k);
      assert NEEDED[k] in NEEDED;
    }
  }

  lemma {:induction false} OkIsComplete(fields: seq<ModuleField>, cp: nat, workers: nat)
    requires Assemble(fields, cp, workers).Ok?
    ensures forall n | n in NEEDED :: LastValue(fields, n).Some?
  {
    hide ToInt, LastValue, DeclaredNodes;
  }

  // ----- the theorem -----

  /** For every written description, complete or not: resolving it gives what it says
      if and only if no block and no comment disturbs it. */
  lemma {:induction false} RoundTripExactly(d: Description, clusterName: string)
    requires Valid(d)
    ensures Resolved(Some(Render(d)), clusterName) == Meaning(d) <==> Undisturbed(d)
  {
    hide Resolved, Render, Valid, CountOf, Read, Said, LastValue, Overrides, Brings, Lost, HidesCount, ToInt, DeclaredNodes,
      NeededBefore, NEEDED;
    var items := AllItems(d);
    var a, b := Read(items), Said(items);
    var cp, workers := CountOf(d.items, "control_plane", true), CountOf(d.items, "workers", true);
    var cp', workers' := CountOf(d.items, "control_plane", false), CountOf(d.items, "workers", false);
    RenderResolved(d, clusterName);
    match Meaning(d)
    case Ok(s) =>
      assert |s.nodes| == cp' + workers';
      hide Assemble;
      OkIsComplete(b, cp', workers');
      AssembledAlike(a, b, cp, workers, cp', workers', DeclaresNone(d));
      CountsUnlessHidden(d, "control_plane");
      CountsUnlessHidden(d, "workers");
      forall n | n in NEEDED
        ensures SameValue(n, LastValue(a, n), LastValue(b, n), DeclaresNone(d)) <==>
                !Lost(items, n) && forall i: nat :: !Overrides(items, DeclaresNone(d), n, i)
      {
        ReadUnlessOverridden(items, n, DeclaresNone(d));
      }
    case Err(MissingField(m)) =>
      hide Assemble;
      MissingExactly(b, cp', workers', m);
      MissingExactly(a, cp, workers, m);
      MissingUnlessBrought(items, m);
      NeededIndex(m);
      forall k: nat | NeededBefore(k, m) ensures LastValue(a, NEEDED[k]) == None <==> Lost(items, NEEDED[k]) {
        ReadUnlessOverridden(items, NEEDED[k], false);
      }
    case Err(BadInteger(text)) =>
      hide Assemble;
      BadExactly(b, cp', workers', text);
      BadExactly(a, cp, workers, text);
      StartIsNeeded();
      forall n | n in NEEDED ensures LastValue(a, n) == None <==> Lost(items, n) { ReadUnlessOverridden(items, n, false); }
      ReadUnlessOverridden(items, "vmid_start", false);
    case Err(NoMainTf) =>
      NeverNoMainTf(b, cp', workers');
  }

  lemma {:induction false} NeededIndex(m: string)
    ensures forall k: nat | NeededBefore(k, m) :: k < |NEEDED|
  {
  }

  lemma {:induction false} StartIsNeeded()
    ensures "vmid_start" in NEEDED
  {
    assert NEEDED[5] == "vmid_start";
  }

  lemma {:induction false} NeverNoMainTf(fields: seq<ModuleField>, cp: nat, workers: nat)
    ensures Assemble(fields, cp, workers) != Err(NoMainTf)
  {
    hide ToInt, LastValue, DeclaredNodes;
  }

  lemma {:induction false} CountsUnlessHidden(d: Description, child: string)
    ensures CountOf(d.items, child, true) == CountOf(d.items, child, false) <==>
            forall i: nat :: !HidesCount(AllItems(d), child, i)
  {
    CountUnlessHidden(AllItems(d), child);
    CountOfTail(d, child, true);
    CountOfTail(d, child, false);
    hide HidesCount, CountOf;
  }

  // ----- field by field -----

  /** The item is the module's own attribute of that name, with that literal. */
  predicate Says(item: Item, name: string, text: string) {
    && item.Single? && item.line.Assign? && item.line.mark.Live? && item.line.attr.name == name
    && match item.line.attr.value
       case Quoted(t) => t == text
       case Number(n) => Dec(n) == text
       case Expr(_) => false
  }

  /** The last attribute of its own that the module gives that name has that literal. */
  ghost predicate SaysLast(items: seq<Item>, name: string, text: string) {
    exists i | 0 <= i < |items| :: Says(items[i], name, text) && forall j, t: string | i < j < |items| :: !Says(items[j], name, t)
  }

  lemma {:induction false} SaidOfItem(item: Item, name: string)
    ensures match LastValue(ItemSaid(item), name)
            case Some(v) => Says(item, name, v)
            case None => forall t: string :: !Says(item, name, t)
  {
    assert LastValue([], name) == None;
    hide Dec;
  }

  lemma {:induction false} SaidLast(items: seq<Item>, name: string)
    requires LastValue(Said(items), name).Some?
    ensures SaysLast(items, name, LastValue(Said(items), name).value)
    decreases |items|
  {
    hide ItemSaid, Says;
    var n := |items| - 1;
    if items != [] {
      var init, last := items[..n], items[n];
      assert items == init + [last];
      SaidOfLast(init, last);
      LastValueAppend(Said(init), ItemSaid(last), name);
      SaidOfItem(last, name);
      hide Said, LastValue;
      var text := LastValue(Said(items), name).value;
      if LastValue(ItemSaid(last), name).Some? {
        assert Says(items[n], name, text);
      } else {
        SaidLast(init, name);
        var i :| 0 <= i < n && Says(init[i], name, text) && forall j, t: string | i < j < n :: !Says(init[j], name, t);
        assert Says(items[i], name, text);
        forall j, t: string | i < j < |items| ensures !Says(items[j], name, t) {
          if j < n { assert items[j] == init[j]; }
        }
      }
    }
  }

  lemma {:induction false} LastNamedIs(fields: seq<ModuleField>, name: string, value: string)
    requires LastNamed(fields, name, value)
    ensures LastValue(fields, name) == Some(value)
  {
    LastValueIs(fields, name);
    hide LastValue;
  }

  lemma {:induction false} NamedIsSaid(items: seq<Item>, name: string, value: string)
    requires LastNamed(Said(items), name, value)
    ensures SaysLast(items, name, value)
  {
    hide Said, LastValue, LastNamed, SaysLast;
    LastNamedIs(Said(items), name, value);
    SaidLast(items, name);
  }

  /** What is resolved of a complete description that nothing disturbs: each setting is
      the module's own of that name, and the nodes are numbered on from its own
      `vmid_start`. */
  lemma {:induction false} RoundTripSays(d: Description, clusterName: string)
    requires Valid(d) && Undisturbed(d) && Meaning(d).Ok?
    ensures Resolved(Some(Render(d)), clusterName).Ok?
    ensures var s, items := Resolved(Some(Render(d)), clusterName).value, AllItems(d);
      && SaysLast(items, "cluster_name", s.clusterName) && SaysLast(items, "vnet_bridge", s.vnetBridge)
      && SaysLast(items, "pod_cidr", s.podCidr) && SaysLast(items, "svc_cidr", s.svcCidr)
      && SaysLast(items, "cluster_dns", s.clusterDns)
      && s.cpCount == CountOf(d.items, "control_plane", false) && s.workerCount == CountOf(d.items, "workers", false)
      && |s.nodes| == s.cpCount + s.workerCount
      && exists text :: SaysLast(items, "vmid_start", text) && NumberedFrom(s, text)
  {
    hide Resolved, Render, Valid, Undisturbed, CountOf, Said, Assemble, LastNamed, SaysLast, NumberedFrom;
    var items := AllItems(d);
    var fields, cp, workers := Said(items), CountOf(d.items, "control_plane", false), CountOf(d.items, "workers", false);
    RoundTripExactly(d, clusterName);
    AssembledDescribes(fields, cp, workers);
    var s := Assemble(fields, cp, workers).value;
    NamedIsSaid(items, "cluster_name", s.clusterName);
    NamedIsSaid(items, "vnet_bridge", s.vnetBridge);
    NamedIsSaid(items, "pod_cidr", s.podCidr);
    NamedIsSaid(items, "svc_cidr", s.svcCidr);
    NamedIsSaid(items, "cluster_dns", s.clusterDns);
    var text :| LastNamed(fields, "vmid_start", text) && NumberedFrom(s, text);
    NamedIsSaid(items, "vmid_start", text);
  }

  // ----- a simple case in which nothing disturbs -----

  /** A needed name stands only where the module itself has it, with nothing but blanks
      behind its value; a block with a needed count is live, and so is its count. */
  predicate UndecoratedItem(item: Item) {
    match item
    case Single(Assign(mark, a)) => a.name in NEEDED ==> mark.Live? && IsBlank(a.tail)
    case Block(mark, _, name, _, _, lines) =>
      && (forall l | l in lines && l.Assign? :: l.attr.name !in NEEDED)
      && (name in {"control_plane", "workers"} ==> mark.Live? && forall l | l in lines && IsCountLine(l, true) :: l.mark.Live?)
    case _ => true
  }

  predicate Undecorated(items: seq<Item>) {
    forall i | 0 <= i < |items| :: UndecoratedItem(items[i])
  }

  lemma {:induction false} NoneAmong(lines: seq<Line>, n: string)
    requires forall l | l in lines && l.Assign? :: l.attr.name != n
    ensures LastValue(LinesRead(lines), n) == None
    decreases |lines|
  {
    assert LastValue([], n) == None;
    if lines != [] {
      assert lines[0] in lines;
      LastValueAppend(LineRead(lines[0]), LinesRead(lines[1..]), n);
      NoneAmong(lines[1..], n);
      hide IsBlank;
    }
  }

  lemma {:induction false} SameInItem(item: Item, n: string)
    requires UndecoratedItem(item) && n in NEEDED
    ensures ReadIn(item, n) == LastValue(ItemSaid(item), n)
  {
    hide NEEDED, IsBlank;
    assert LastValue([], n) == None;
    if item.Block? { NoneAmong(item.lines, n); }
  }

  lemma {:induction false} SameReading(items: seq<Item>, n: string)
    requires Undecorated(items) && n in NEEDED
    ensures LastValue(Read(items), n) == LastValue(Said(items), n)
    decreases |items|
  {
    hide ItemRead, ItemSaid, UndecoratedItem, NEEDED;
    if items != [] {
      var k := |items| - 1;
      var init, last := items[..k], items[k];
      assert items == init + [last];
      ReadOfLast(init, last);
      SaidOfLast(init, last);
      LastValueAppend(Read(init), ItemRead(last), n);
      LastValueAppend(Said(init), ItemSaid(last), n);
      SameReading(init, n);
      SameInItem(last, n);
    } else {
      assert Read(items) == [] && Said(items) == [];
    }
  }

  lemma {:induction false} SameFirstCount(lines: seq<Line>)
    requires forall l | l in lines && IsCountLine(l, true) :: l.mark.Live?
    ensures FirstCount(lines, true) == FirstCount(lines, false)
    decreases |lines|
  {
    if lines != [] && !IsCountLine(lines[0], true) { SameFirstCount(lines[1..]); }
  }

  lemma {:induction false} SameCount(items: seq<Item>, child: string)
    requires Undecorated(items) && child in {"control_plane", "workers"}
    ensures CountOf(items, child, true) == CountOf(items, child, false)
    decreases |items|
  {
    if items != [] {
      assert UndecoratedItem(items[0]);
      hide NEEDED, UndecoratedItem;
      if IsBlock(items[0], child) {
        SameFirstCount(items[0].lines);
      } else {
        SameCount(items[1..], child);
      }
    }
  }

  lemma {:induction false} AssembleAgrees(a: seq<ModuleField>, b: seq<ModuleField>, cp: nat, workers: nat)
    requires forall n | n in NEEDED :: LastValue(a, n) == LastValue(b, n)
    ensures Assemble(a, cp, workers) == Assemble(b, cp, workers)
  {
    Spelled();
    assert NEEDED[0] in NEEDED && NEEDED[1] in NEEDED && NEEDED[2] in NEEDED;
    assert NEEDED[3] in NEEDED && NEEDED[4] in NEEDED && NEEDED[5] in NEEDED;
    hide LastValue, ToInt, DeclaredNodes, NEEDED;
  }

  /** The round trip: an undecorated description is resolved to exactly what it says,
      error cases included. */
  lemma {:induction false} RoundTrip(d: Description, clusterName: string)
    requires Valid(d) && Undecorated(AllItems(d))
    ensures Resolved(Some(Render(d)), clusterName) == Meaning(d)
  {
    hide Resolved, Render, Valid, Undecorated, Assemble, NEEDED, CountOf, Read, Said, LastValue;
    var items := AllItems(d);
    RenderResolved(d, clusterName);
    forall n | n in NEEDED ensures LastValue(Read(items), n) == LastValue(Said(items), n) { SameReading(items, n); }
    SameCount(items, "control_plane");
    SameCount(items, "workers");
    CountOfTail(d, "control_plane", true);
    CountOfTail(d, "control_plane", false);
    CountOfTail(d, "workers", true);
    CountOfTail(d, "workers", false);
    AssembleAgrees(Read(items), Said(items), CountOf(d.items, "control_plane", true), CountOf(d.items, "workers", true));
  }
}
