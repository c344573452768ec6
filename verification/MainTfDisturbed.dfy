/** Written descriptions that are not read as what they say, one for each way. */
module MainTfDisturbed {
  import opened Text
  import opened HclScanner
  import opened HclFields
  import opened Topology
  import opened MainTf
  import opened MainTfScan
  import opened MainTfRoundTrip
  import opened MainTfMeaning
  import opened MainTfExact

  // ----- a small description -----

  function Own(name: string, text: string): Item { Single(Assign(Live, Attr(2, name, 1, 1, Quoted(text), ""))) }

  /** All that is needed but for `pod_cidr`. */
  const CORE := [(NEEDED[0], "c"), (NEEDED[2], "s"), (NEEDED[3], "d"), (NEEDED[4], "v"), (NEEDED[5], "1")]

  const POD := Own(NEEDED[1], "a")

  function Owns(pairs: seq<(string, string)>): (r: seq<Item>)
    ensures |r| == |pairs| && forall i | 0 <= i < |r| :: r[i] == Own(pairs[i].0, pairs[i].1)
  {
    seq(|pairs|, i requires 0 <= i < |pairs| => Own(pairs[i].0, pairs[i].1))
  }

  function Small(items: seq<Item>): Description { Description("", "c", "", "", Owns(CORE) + items, "") }

  // ----- what is read of it -----

  /** What one item says of a name. */
  function SaidIn(item: Item, n: string): Option<string> { LastValue(ItemSaid(item), n) }

  lemma {:induction false} OneMore(items: seq<Item>, last: Item, n: string)
    ensures LastValue(Read(items + [last]), n) == if ReadIn(last, n).Some? then ReadIn(last, n) else LastValue(Read(items), n)
    ensures OwnValue(items + [last], n) == if SaidIn(last, n).Some? then SaidIn(last, n) else OwnValue(items, n)
  {
    hide ItemRead, ItemSaid;
    ReadOfLast(items, last);
    LastValueAppend(Read(items), ItemRead(last), n);
    SaidOfLast(items, last);
    LastValueAppend(Said(items), ItemSaid(last), n);
  }

  lemma {:induction false} OneLiteral(name: string, text: string, n: string)
    ensures LastValue([ModuleField(name, text)], n) == if name == n then Some(text) else None
  {
    assert LastValue([], n) == None;
  }

  /** The value of a name among own attributes behind other items. */
  lemma {:induction false} OwnsRead(base: seq<Item>, pairs: seq<(string, string)>, n: string, i: int)
    requires -1 <= i < |pairs| && (i >= 0 ==> pairs[i].0 == n) && forall j | i < j < |pairs| :: pairs[j].0 != n
    ensures var items := base + Owns(pairs);
      if i >= 0 then LastValue(Read(items), n) == OwnValue(items, n) == Some(pairs[i].1)
      else LastValue(Read(items), n) == LastValue(Read(base), n) && OwnValue(items, n) == OwnValue(base, n)
    decreases |pairs|
  {
    hide Read, OwnValue;
    if pairs == [] {
      assert base + Owns(pairs) == base;
    } else {
      var k := |pairs| - 1;
      var last := Own(pairs[k].0, pairs[k].1);
      assert base + Owns(pairs) == (base + Owns(pairs[..k])) + [last];
      OneMore(base + Owns(pairs[..k]), last, n);
      assert ItemRead(last) == ItemSaid(last) == [ModuleField(pairs[k].0, pairs[k].1)];
      OneLiteral(pairs[k].0, pairs[k].1, n);
      hide ItemRead, ItemSaid, LastValue;
      if i < k { OwnsRead(base, pairs[..k], n, i); }
    }
  }

  const SOURCE := Own("source", "proxmox-k3s-cluster")

  /** Every needed name but `pod_cidr` has its value. */
  lemma {:induction false} CoreRead(k: nat)
    requires k < 6
    ensures var items := [SOURCE] + Owns(CORE);
      if k == 1 then LastValue(Read(items), NEEDED[k]) == None && OwnValue(items, NEEDED[k]) == None
      else LastValue(Read(items), NEEDED[k]) == OwnValue(items, NEEDED[k]) == Some(["c", "", "s", "d", "v", "1"][k])
  {
    NeededNames();
    assert |NEEDED| == 6;
    SourceRead(NEEDED[k]);
    hide NEEDED, SOURCE, Read, OwnValue, LastValue;
    OwnsRead([SOURCE], CORE, NEEDED[k], if k == 0 then 0 else if k == 1 then -1 else k - 1);
  }

  lemma {:induction false} SourceRead(n: string)
    requires n != "source"
    ensures LastValue(Read([SOURCE]), n) == None && OwnValue([SOURCE], n) == None
  {
    assert [SOURCE][1..] == [] && Read([]) == [] && Said([]) == [];
    OneLiteral("source", "proxmox-k3s-cluster", n);
  }

  /** A description of the core and more items: what is read and what it says, name
      by name, in terms of those items. */
  lemma {:induction false} SmallRead(items: seq<Item>, clusterName: string)
    requires ValidItems(items)
    ensures Valid(Small(items))
    ensures Resolved(Some(Render(Small(items))), clusterName) ==
            Assemble(Read([SOURCE] + Owns(CORE) + items), CountOf(items, "control_plane", true), CountOf(items, "workers", true))
    ensures Meaning(Small(items)) ==
            Assemble(Said([SOURCE] + Owns(CORE) + items), CountOf(items, "control_plane", false), CountOf(items, "workers", false))
  {
    hide Valid, Render, Resolved, Assemble, ValidItems, CountOf, Read, Said, CORE, SOURCE;
    ValidSmall(items);
    RenderResolved(Small(items), clusterName);
    SmallItems(items);
    NoBlockAmongOwn(CORE, items, "control_plane", true);
    NoBlockAmongOwn(CORE, items, "workers", true);
    NoBlockAmongOwn(CORE, items, "control_plane", false);
    NoBlockAmongOwn(CORE, items, "workers", false);
    hide Owns;
  }

  lemma {:induction false} SmallItems(items: seq<Item>)
    ensures AllItems(Small(items)) == [SOURCE] + Owns(CORE) + items
  {
    assert "" + "proxmox-k3s-cluster" + "" == "proxmox-k3s-cluster";
    hide Owns, CORE;
    assert Single(Assign(Live, SourceAttr(Small(items)))) == SOURCE;
  }

  lemma {:induction false} NoBlockAmongOwn(pairs: seq<(string, string)>, items: seq<Item>, child: string, all: bool)
    ensures CountOf(Owns(pairs) + items, child, all) == CountOf(items, child, all)
    decreases |pairs|
  {
    if pairs == [] {
      assert Owns(pairs) + items == items;
    } else {
      assert (Owns(pairs) + items)[1..] == Owns(pairs[1..]) + items;
      NoBlockAmongOwn(pairs[1..], items, child, all);
    }
  }

  lemma {:induction false} ValidSmall(items: seq<Item>)
    requires ValidItems(items)
    ensures Valid(Small(items))
  {
    assert ModuleWordAt("", 0) == None;
    CoreValid();
    hide ValidItem, CORE;
  }

  lemma {:induction false} CoreValid()
    ensures forall i | 0 <= i < |CORE| :: ValidItem(Owns(CORE)[i])
    ensures IsIdent(NEEDED[1])
  {
    NeededIdents();
    hide NEEDED;
    assert IsPlain("c") && IsPlain("s") && IsPlain("d") && IsPlain("v") && IsPlain("1");
    assert IsClosed("") && IsNote("");
    hide IsPlain, IsIdent, IsClosed, IsNote;
  }

  lemma {:induction false} NeededIdents()
    ensures |NEEDED| == 6 && forall i | 0 <= i < 6 :: IsIdent(NEEDED[i])
  {
    forall i | 0 <= i < 6 ensures IsIdent(NEEDED[i]) {
      if i == 0 { assert IsIdent("cluster_name"); }
      else if i == 1 { assert IsIdent("pod_cidr"); }
      else if i == 2 { assert IsIdent("svc_cidr"); }
      else if i == 3 { assert IsIdent("cluster_dns"); }
      else if i == 4 { assert IsIdent("vnet_bridge"); }
      else { assert IsIdent("vmid_start"); }
    }
  }

  // ----- one item more -----

  /** Of the needed names the item has `pod_cidr` at most. */
  predicate PodAtMost(x: Item) {
    ValidItem(x) && forall n | n in NEEDED && n != "pod_cidr" :: ReadIn(x, n) == None && SaidIn(x, n) == None
  }

  /** What the description assembled from some values comes to, as far as it matters here. */
  ghost predicate Comes(r: Result<Static, ResolveError>, pod: Option<string>, workers: nat) {
    if pod == None then r == Err(MissingField("pod_cidr")) else r.Ok? && r.value.podCidr == pod.value && r.value.workerCount == workers
  }

  lemma {:induction false} ReadsAsNumber()
    ensures ToInt("1") == Some(1)
  {
    ToIntOfDec(1);
    assert Dec(1) == "1";
    hide ToInt;
  }

  /** The core's values, and one for `pod_cidr` or none. */
  ghost predicate CoreAnd(fields: seq<ModuleField>, pod: Option<string>) {
    forall k: nat | k < 6 :: |NEEDED| == 6 && LastValue(fields, NEEDED[k]) == if k == 1 then pod else Some(["c", "", "s", "d", "v", "1"][k])
  }

  lemma {:induction false} Assembled(fields: seq<ModuleField>, pod: Option<string>, cp: nat, workers: nat)
    requires CoreAnd(fields, pod)
    ensures Comes(Assemble(fields, cp, workers), pod, workers)
  {
    ReadsAsNumber();
    Spelled();
    hide LastValue, ToInt, DeclaredNodes;
    assert LastValue(fields, NEEDED[0]) == Some("c") && LastValue(fields, NEEDED[1]) == pod && LastValue(fields, NEEDED[2]) == Some("s");
    assert LastValue(fields, NEEDED[3]) == Some("d") && LastValue(fields, NEEDED[4]) == Some("v") && LastValue(fields, NEEDED[5]) == Some("1");
  }

  /** Adding an item that has `pod_cidr` at most. */
  lemma {:induction false} CoreAndMore(items: seq<Item>, x: Item, read: Option<string>, own: Option<string>)
    requires PodAtMost(x) && CoreAnd(Read(items), read) && CoreAnd(Said(items), own)
    ensures CoreAnd(Read(items + [x]), if ReadIn(x, "pod_cidr").Some? then ReadIn(x, "pod_cidr") else read)
    ensures CoreAnd(Said(items + [x]), if SaidIn(x, "pod_cidr").Some? then SaidIn(x, "pod_cidr") else own)
  {
    NeededNames();
    assert |NEEDED| == 6 && NEEDED[1] == "pod_cidr";
    hide NEEDED, Read, Said, LastValue, ReadIn, SaidIn, ValidItem, OwnValue;
    forall k: nat | k < 6
      ensures LastValue(Read(items + [x]), NEEDED[k]) ==
              if k == 1 && ReadIn(x, "pod_cidr").Some? then ReadIn(x, "pod_cidr") else LastValue(Read(items), NEEDED[k])
      ensures LastValue(Said(items + [x]), NEEDED[k]) ==
              if k == 1 && SaidIn(x, "pod_cidr").Some? then SaidIn(x, "pod_cidr") else LastValue(Said(items), NEEDED[k])
    {
      OneMore(items, x, NEEDED[k]);
      OwnIs(items, NEEDED[k]);
      OwnIs(items + [x], NEEDED[k]);
    }
    hide PodAtMost;
  }

  lemma {:induction false} OwnIs(items: seq<Item>, n: string)
    ensures OwnValue(items, n) == LastValue(Said(items), n)
  {
  }

  lemma {:induction false} CoreAlone()
    ensures CoreAnd(Read([SOURCE] + Owns(CORE)), None) && CoreAnd(Said([SOURCE] + Owns(CORE)), None)
  {
    assert |NEEDED| == 6;
    hide NEEDED, CORE, SOURCE, Read, Said, LastValue;
    forall k: nat | k < 6 { CoreRead(k); }
  }

  /** A description of the core and one more item. */
  lemma {:induction false} OneItem(x: Item, clusterName: string)
    requires PodAtMost(x)
    ensures var d := Small([x]);
      && Valid(d)
      && Comes(Meaning(d), SaidIn(x, "pod_cidr"), CountOf([x], "workers", false))
      && Comes(Resolved(Some(Render(d)), clusterName), ReadIn(x, "pod_cidr"), CountOf([x], "workers", true))
  {
    hide Valid, Render, Resolved, Meaning, Owns, CORE, SOURCE, ReadIn, SaidIn, ValidItem, Read, Said, LastValue, Assemble, CountOf, Small,
      CoreAnd, Comes;
    SmallRead([x], clusterName);
    CoreAlone();
    CoreAndMore([SOURCE] + Owns(CORE), x, None, None);
    var items := [SOURCE] + Owns(CORE) + [x];
    Assembled(Read(items), ReadIn(x, "pod_cidr"), CountOf([x], "control_plane", true), CountOf([x], "workers", true));
    Assembled(Said(items), SaidIn(x, "pod_cidr"), CountOf([x], "control_plane", false), CountOf([x], "workers", false));
  }

  /** A description of the core, a `pod_cidr`, and one more item. */
  lemma {:induction false} PodAndItem(x: Item, clusterName: string)
    requires PodAtMost(x) && SaidIn(x, "pod_cidr") == None
    ensures var d := Small([POD, x]);
      && Valid(d)
      && Comes(Meaning(d), Some("a"), CountOf([x], "workers", false))
      && Comes(Resolved(Some(Render(d)), clusterName), Some(ReadIn(x, "pod_cidr").GetOr("a")), CountOf([x], "workers", true))
  {
    PodHolds();
    hide Valid, Render, Resolved, Meaning, Owns, CORE, SOURCE, POD, ReadIn, SaidIn, ValidItem, Read, Said, LastValue, Assemble, CountOf, Small,
      CoreAnd, Comes;
    SmallRead([POD, x], clusterName);
    CoreAlone();
    var base := [SOURCE] + Owns(CORE);
    CoreAndMore(base, POD, None, None);
    CoreAndMore(base + [POD], x, Some("a"), Some("a"));
    CountPastPod(x, "workers", true);
    CountPastPod(x, "workers", false);
    assert base + [POD] + [x] == base + [POD, x];
    Assembled(Read(base + [POD, x]), Some(ReadIn(x, "pod_cidr").GetOr("a")), CountOf([POD, x], "control_plane", true),
              CountOf([POD, x], "workers", true));
    Assembled(Said(base + [POD, x]), Some("a"), CountOf([POD, x], "control_plane", false), CountOf([POD, x], "workers", false));
  }

  lemma {:induction false} CountPastPod(x: Item, child: string, all: bool)
    ensures CountOf([POD, x], child, all) == CountOf([x], child, all)
  {
    assert [POD, x][1..] == [x];
  }

  // ----- single lines -----

  function PodLine(mark: Mark, text: string, tail: string): Line {
    Assign(mark, Attr(1, "pod_cidr", 1, 1, Quoted(text), tail))
  }

  lemma {:induction false} OneRead(name: string, text: string)
    ensures forall n :: LastValue([ModuleField(name, text)], n) == if name == n then Some(text) else None
    ensures forall n :: LastValue([], n) == None
  {
    forall n ensures LastValue([ModuleField(name, text)], n) == if name == n then Some(text) else None { OneLiteral(name, text, n); }
  }

  lemma {:induction false} OneBlockCount(x: Item)
    ensures CountOf([x], "workers", true) == if IsBlock(x, "workers") then BlockCount(x.lines, true) else 1
    ensures CountOf([x], "workers", false) == if IsBlock(x, "workers") && x.mark.Live? then BlockCount(x.lines, false) else 1
  {
    var none: seq<Item> := [];
    assert [x][1..] == none && FirstBlock(none, "workers", false) == None && FirstBlock(none, "workers", true) == None;
    hide BlockCount;
  }

  /** What is read and what is said of a line `pod_cidr = "<text>"`. */
  lemma {:induction false} PodLineHolds(mark: Mark, text: string, tail: string)
    requires ValidMark(mark) && IsPlain(text) && IsClosed(tail) && (tail != "" ==> tail[0] == ' ') && (mark.Live? ==> IsNote(tail))
    ensures var x := Single(PodLine(mark, text, tail));
      && PodAtMost(x)
      && ReadIn(x, "pod_cidr") == (if IsBlank(tail) then Some(text) else None)
      && SaidIn(x, "pod_cidr") == (if mark.Live? then Some(text) else None)
  {
    var x := Single(PodLine(mark, text, tail));
    assert IsIdent("pod_cidr");
    OneRead("pod_cidr", text);
    hide IsIdent, IsPlain, IsClosed, IsNote, IsBlank, ValidMark, LastValue, NEEDED;
  }

  lemma {:induction false} PodHolds()
    ensures PodAtMost(POD) && ReadIn(POD, "pod_cidr") == SaidIn(POD, "pod_cidr") == Some("a")
  {
    assert IsIdent("pod_cidr") && IsPlain("a") && IsClosed("") && IsNote("") && IsBlank("");
    Spelled();
    OneRead("pod_cidr", "a");
    hide IsIdent, IsPlain, IsClosed, IsNote, IsBlank, LastValue;
    assert POD == Own("pod_cidr", "a");
    hide NEEDED;
  }

  /** A `pod_cidr` that is commented out behind the module's own replaces it, wherever
      the comment begins. */
  lemma {:induction false} CommentedKeyWins(margin: nat, clusterName: string)
    ensures var d := Small([POD, Single(PodLine(Off(margin, ""), "b", ""))]);
      && Valid(d)
      && Comes(Meaning(d), Some("a"), 1)
      && Comes(Resolved(Some(Render(d)), clusterName), Some("b"), 1)
  {
    var x := Single(PodLine(Off(margin, ""), "b", ""));
    assert IsClosed("") && IsNote("") && IsBlank("");
    PodLineHolds(Off(margin, ""), "b", "");
    OneBlockCount(x);
    hide Small, Render, Resolved, Valid, Meaning, POD, ReadIn, SaidIn, PodAtMost, Comes, CountOf;
    PodAndItem(x, clusterName);
  }

  /** With a comment behind it the module's own is not read, and is missing. */
  lemma {:induction false} NotedKeyLost(clusterName: string)
    ensures var d := Small([Single(PodLine(Live, "a", " # was b"))]);
      && Valid(d)
      && Comes(Meaning(d), Some("a"), 1)
      && Comes(Resolved(Some(Render(d)), clusterName), None, 1)
  {
    var note := " # was b";
    var x := Single(PodLine(Live, "a", note));
    assert note[1] == '#' && !IsSpace(note[1]);
    NoQuotes(note);
    NoteIsNote(note);
    PodLineHolds(Live, "a", note);
    OneBlockCount(x);
    hide Small, Render, Resolved, Valid, Meaning, ReadIn, SaidIn, PodAtMost, Comes, CountOf;
    OneItem(x, clusterName);
  }

  lemma {:induction false} NoteIsNote(note: string)
    requires |note| > 1 && note[0] == ' ' && note[1] == '#' && !InString(note)
    requires forall i | 0 <= i < |note| :: note[i] !in {'\\', '{', '}', '=', '\n'}
    ensures IsClosed(note) && IsNote(note) && !IsBlank(note)
  {
    assert LStrip(note) == note[1..] && note[1..][..1] == "#";
    hide InString;
  }

  // ----- blocks -----

  function CountLine(mark: Mark, n: nat): Line { Assign(mark, Attr(4, "count", 1, 1, Number(n), "")) }

  /** A live block with a `pod_cidr`. */
  const NESTED := Block(Live, 2, "extra", 1, 1, [PodLine(Live, "b", "")])

  lemma {:induction false} NestedHolds()
    ensures PodAtMost(NESTED) && ReadIn(NESTED, "pod_cidr") == Some("b") && SaidIn(NESTED, "pod_cidr") == None
    ensures CountOf([NESTED], "workers", true) == CountOf([NESTED], "workers", false) == 1
  {
    assert IsIdent("pod_cidr") && IsIdent("extra") && IsPlain("b") && IsClosed("") && IsNote("") && IsBlank("");
    var lines := NESTED.lines;
    OneBlockCount(NESTED);
    assert "extra"[0] != "workers"[0];
    assert lines[1..] == [] && LinesRead([]) == [] && LinesRead(lines) == [ModuleField("pod_cidr", "b")];
    OneRead("pod_cidr", "b");
    hide IsIdent, IsPlain, IsClosed, IsNote, IsBlank, LastValue, NEEDED, LinesRead;
  }

  /** A `pod_cidr` in a block behind the module's own replaces it. */
  lemma {:induction false} NestedKeyWins(clusterName: string)
    ensures var d := Small([POD, NESTED]);
      && Valid(d)
      && Comes(Meaning(d), Some("a"), 1)
      && Comes(Resolved(Some(Render(d)), clusterName), Some("b"), 1)
  {
    NestedHolds();
    hide Small, Render, Resolved, Valid, Meaning, NESTED, POD, ReadIn, SaidIn, PodAtMost, Comes, CountOf;
    PodAndItem(NESTED, clusterName);
  }

  /** A field that only a block has is accepted as the module's. */
  lemma {:induction false} NestedKeySuffices(clusterName: string)
    ensures var d := Small([NESTED]);
      && Valid(d)
      && Comes(Meaning(d), None, 1)
      && Comes(Resolved(Some(Render(d)), clusterName), Some("b"), 1)
  {
    NestedHolds();
    hide Small, Render, Resolved, Valid, Meaning, NESTED, ReadIn, SaidIn, PodAtMost, Comes, CountOf;
    OneItem(NESTED, clusterName);
  }

  function Workers(mark: Mark, lines: seq<Line>): Item { Block(mark, 2, "workers", 1, 1, lines) }

  lemma {:induction false} NeededHaveNoCount()
    ensures "count" !in NEEDED
  {
    assert |"count"| == 5;
  }

  /** A block of workers with count lines only. */
  lemma {:induction false} WorkersHold(mark: Mark, lines: seq<Line>)
    requires ValidMark(mark) && forall l | l in lines :: ValidInside(mark, l) && l.Assign? && l.attr.name == "count"
    ensures PodAtMost(Workers(mark, lines))
    ensures ReadIn(Workers(mark, lines), "pod_cidr") == SaidIn(Workers(mark, lines), "pod_cidr") == None
    ensures CountOf([Workers(mark, lines)], "workers", true) == BlockCount(lines, true)
    ensures CountOf([Workers(mark, lines)], "workers", false) == if mark.Live? then BlockCount(lines, false) else 1
  {
    NeededHaveNoCount();
    assert IsIdent("workers") && "count" != "pod_cidr";
    OneBlockCount(Workers(mark, lines));
    forall n | n != "count" ensures LastValue(LinesRead(lines), n) == None { NoneAmong(lines, n); }
    assert forall n :: LastValue([], n) == None;
    hide IsIdent, ValidInside, BlockCount, LinesRead, LastValue, NEEDED, ValidMark, CountOf;
  }

  lemma {:induction false} CountLineInside(mark: Mark, m: Mark, n: nat)
    requires ValidMark(m) && (mark.Off? ==> m.Off?)
    ensures ValidInside(mark, CountLine(m, n))
  {
    assert IsIdent("count") && IsClosed("") && IsNote("");
    hide IsIdent, IsClosed, IsNote, ValidMark;
  }

  /** A block of workers that is commented out still gives the count. */
  lemma {:induction false} CommentedBlockCounts(margin: nat, clusterName: string)
    ensures var d := Small([POD, Workers(Off(margin, ""), [CountLine(Off(margin, ""), 3)])]);
      && Valid(d)
      && Comes(Meaning(d), Some("a"), 1)
      && Comes(Resolved(Some(Render(d)), clusterName), Some("a"), 3)
  {
    var mark := Off(margin, "");
    var lines := [CountLine(mark, 3)];
    assert IsClosed("");
    CountLineInside(mark, mark, 3);
    WorkersHold(mark, lines);
    assert BlockCount(lines, true) == 3;
    hide Small, Render, Resolved, Valid, Meaning, POD, ReadIn, SaidIn, PodAtMost, Comes, CountOf, BlockCount, Workers;
    PodAndItem(Workers(mark, lines), clusterName);
  }

  /** So does a count that is commented out in front of the live one. */
  lemma {:induction false} CommentedCountWins(margin: nat, clusterName: string)
    ensures var d := Small([POD, Workers(Live, [CountLine(Off(margin, ""), 3), CountLine(Live, 1)])]);
      && Valid(d)
      && Comes(Meaning(d), Some("a"), 1)
      && Comes(Resolved(Some(Render(d)), clusterName), Some("a"), 3)
  {
    var mark := Off(margin, "");
    var lines := [CountLine(mark, 3), CountLine(Live, 1)];
    assert IsClosed("");
    CountLineInside(Live, mark, 3);
    CountLineInside(Live, Live, 1);
    WorkersHold(Live, lines);
    assert lines[1..] == [CountLine(Live, 1)] && FirstCount([CountLine(Live, 1)], false) == Some(1);
    assert BlockCount(lines, true) == 3 && BlockCount(lines, false) == 1;
    hide Small, Render, Resolved, Valid, Meaning, POD, ReadIn, SaidIn, PodAtMost, Comes, CountOf, BlockCount, Workers;
    PodAndItem(Workers(Live, lines), clusterName);
  }

  // ----- a block that is never closed -----

  const OPENING := "#workers = {\n"

  const COUNTING := "  count = 3\n"

  /** A module whose comment in column 0 opens a block that nothing closes: the
      scanner skips the comment, the nested scan runs to the end of the body, and the
      count found on the way is taken. */
  lemma {:induction false} UnclosedBlockCounts()
    ensures var t := "module \"c\" {" + ("\n" + (OPENING + COUNTING)) + "}";
      Body(t, "c") == Some("\n" + (OPENING + COUNTING)) && NestedCount(t, "c", "workers") == 3
  {
    var text := OPENING + COUNTING;
    var t := "module \"c\" {" + ("\n" + text) + "}";
    UnclosedBody(t, text);
    UnclosedCount();
    hide Body, Search, CountIn, ChildInner, OPENING, COUNTING;
    var body := "\n" + text;
    assert body == ['\n'] + text;
    SkipChar(true, '\n', text, OpensChild("workers"));
  }

  lemma {:induction false} UnclosedBody(t: string, text: string)
    requires text == OPENING + COUNTING && t == "module \"c\" {" + ("\n" + text) + "}"
    ensures Body(t, "c") == Some("\n" + text)
  {
    CommentLines();
    AroundLines(t, text);
    hide OPENING, COUNTING, IsLine, Body, Around;
    TwoLinesBody(t, OPENING, COUNTING);
  }

  lemma {:induction false} AroundLines(t: string, text: string)
    requires t == "module \"c\" {" + ("\n" + text) + "}"
    ensures Around(t, "", "c", "\n" + text, "")
  {
    assert "" + "module \"" + "c" + "\" {" == "module \"c\" {";
  }

  lemma {:induction false} TwoLinesBody(t: string, first: string, second: string)
    requires IsLine(first) && IsLine(second) && Around(t, "", "c", "\n" + (first + second), "")
    ensures Body(t, "c") == Some("\n" + (first + second))
  {
    hide IsLine, Around;
    var h, text := 12, first + second;
    assert ModuleWordAt("", 0) == None;
    HeaderFound(t, "", "c", "\n" + text, "");
    AroundPlaced(t, "", "c", text, "");
    FirstNewline(t, h);
    AtConcat(t, h + 1, first, second);
    assert Placed(t, h, text) && t[h] == '\n';
    hide Header, Body, Passes, At, Starts, Depth;
    LinePasses(t, h, h + 1, first, 1);
    StartsAfter(t, h, h + 1, first, 1);
    LinePasses(t, h, h + 1 + |first|, second, 1);
    PassBoth(t, h, h + 1, first, second, 1);
    PassedIsClosed(t, h, text);
    BodyFound(t, "c", h, text);
  }

  lemma {:induction false} CommentLines()
    ensures IsLine(OPENING) && IsLine(COUNTING) && NoBrace(COUNTING)
  {
    NoQuotes("  count = 3");
    assert COUNTING[..|COUNTING| - 1] == "  count = 3";
  }

  lemma {:induction false} UnclosedCount()
    ensures var r := Search(true, OPENING + COUNTING, OpensChild("workers"));
      r.Some? && CountIn(ChildInner(r.value.1[1..])) == 3
  {
    CommentLines();
    OpeningText();
    CountInCounting();
    NewlineNoBrace();
    assert IsIdent("workers");
    hide OPENING, COUNTING, CountIn, ChildInner, Search, IsLine, NoBrace, IsIdent;
    NoBraceConcat("\n", COUNTING);
    TakenToTheEnd(OPENING + COUNTING, "workers", COUNTING);
  }

  lemma {:induction false} TakenToTheEnd(text: string, child: string, rest: string)
    requires IsIdent(child) && text == MarkText(Off(0, "")) + (Head(0, child, 1, 1) + ("{\n" + rest)) && NoBrace("\n" + rest)
    ensures var r := Search(true, text, OpensChild(child));
      r.Some? && ChildInner(r.value.1[1..]) == ("\n" + rest)[..|"\n" + rest| - 1]
  {
    assert ValidMark(Off(0, "")) by { assert IsClosed(""); }
    DropBrace(rest);
    hide IsIdent, ValidMark, NoBrace, MarkText, Head, Search, ChildInner;
    CommentedOpeningIsTaken(Off(0, ""), 0, child, 1, 1, rest);
    NeverClosed("\n" + rest);
  }

  lemma {:induction false} DropBrace(rest: string)
    ensures ("{\n" + rest)[1..] == "\n" + rest
  {
  }

  lemma {:induction false} OpeningText()
    ensures OPENING + COUNTING == MarkText(Off(0, "")) + (Head(0, "workers", 1, 1) + ("{\n" + COUNTING))
  {
    assert Spaces(0) == "" && Spaces(1) == " ";
    assert "#" + "workers" + " " + "=" + " " + "{\n" == OPENING;
    hide COUNTING;
  }

  lemma {:induction false} NeverClosed(u: string)
    requires NoBrace(u) && u != ""
    ensures ChildInner(u) == u[..|u| - 1]
  {
    forall k: nat | k < |u| ensures !IsRawClose(u, k) { NoBraceDepth(u, k + 1); }
  }

  lemma {:induction false} CountInCounting()
    ensures CountIn(("\n" + COUNTING)[..|"\n" + COUNTING| - 1]) == 3
  {
    var inner := ("\n" + COUNTING)[..|"\n" + COUNTING| - 1];
    assert inner == ['\n'] + "  count = 3";
    assert IsIdent("count");
    assert Head(2, "count", 1, 1) + "3" == "  count = 3" by { assert Spaces(2) == "  " && Spaces(1) == " "; }
    hide COUNTING, Head, Search;
    SkipChar(true, '\n', "  count = 3", IsCount);
    SpanAt(IsDigit, "3", "");
    assert "3" + "" == "3" && "3"[..1] == "3" && "3"[..0] == "";
    assert DigitsToNat("3") == 3;
    SearchHead(true, 2, "count", 1, 1, "3", IsCount);
  }
}
