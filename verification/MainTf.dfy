/** The written form of a cluster root's `main.tf`, as far as the resolver reads
    it: a module block of attributes, nested blocks, comments and plain lines. */
module MainTf {
  import opened Text
  import opened HclScanner
  import opened HclFields
  import opened Topology

  datatype Value = Quoted(text: string) | Number(n: nat) | Expr(text: string)

  /** `tail` is what stands behind the value: blanks, or a comment. */
  datatype Attr = Attr(indent: nat, name: string, pad: nat, gap: nat, value: Value, tail: string)

  /** A line may be commented out: then `margin` blanks, a `#` and perhaps some words
      stand in front of it. */
  datatype Mark = Live | Off(margin: nat, lead: string)

  datatype Line =
    | Assign(mark: Mark, attr: Attr)
    | Plain(text: string)                                               // a line without `=` or braces
    | Remark(text: string)                                              // a comment in column 0 without `=`

  /** A block that is commented out has the mark on its first and last line. */
  datatype Item =
    | Single(line: Line)
    | Block(mark: Mark, indent: nat, name: string, pad: nat, gap: nat, lines: seq<Line>)

  /** `preamble`, then `module "<key>" { source = "<dir>proxmox-k3s-cluster<tail>" <items> }`, then `rest`. */
  datatype Description = Description(preamble: string, key: string, dir: string, tail: string,
                                     items: seq<Item>, rest: string)

  // ----- the text -----

  function ValueText(v: Value): string {
    match v
    case Quoted(t) => "\"" + t + "\""
    case Number(n) => Dec(n)
    case Expr(t) => t
  }

  function Head(indent: nat, name: string, pad: nat, gap: nat): string {
    Spaces(indent) + name + Spaces(pad) + ("=" + Spaces(gap))
  }

  /** The right-hand side of an attribute. */
  function Right(a: Attr): string { ValueText(a.value) + a.tail }

  function AttrLine(a: Attr): string {
    Head(a.indent, a.name, a.pad, a.gap) + Right(a) + "\n"
  }

  function MarkText(mark: Mark): string {
    match mark
    case Live => ""
    case Off(margin, lead) => Spaces(margin) + ("#" + lead)
  }

  function LineText(l: Line): string {
    match l
    case Assign(mark, a) => MarkText(mark) + AttrLine(a)
    case Plain(t) => t + "\n"
    case Remark(t) => "#" + t + "\n"
  }

  function LinesText(lines: seq<Line>): string {
    if lines == [] then "" else LineText(lines[0]) + LinesText(lines[1..])
  }

  /** In front of the closing brace of a block. */
  function CloseHead(mark: Mark, indent: nat): string {
    MarkText(if mark.Off? then Off(mark.margin, "") else Live) + Spaces(indent)
  }

  function BlockHead(item: Item): string
    requires item.Block?
  {
    MarkText(item.mark) + Head(item.indent, item.name, item.pad, item.gap)
  }

  function ItemText(item: Item): string {
    match item
    case Single(l) => LineText(l)
    case Block(mark, indent, _, _, _, lines) =>
      BlockHead(item) + ("{\n" + (LinesText(lines) + (CloseHead(mark, indent) + "}\n")))
  }

  function ItemsText(items: seq<Item>): string {
    if items == [] then "" else ItemText(items[0]) + ItemsText(items[1..])
  }

  function SourceAttr(d: Description): Attr {
    Attr(2, "source", 1, 1, Quoted(d.dir + "proxmox-k3s-cluster" + d.tail), "")
  }

  function AllItems(d: Description): seq<Item> { [Single(Assign(Live, SourceAttr(d)))] + d.items }

  function BodyText(d: Description): string { "\n" + ItemsText(AllItems(d)) }

  function Opening(d: Description): string { d.preamble + "module \"" + d.key + "\" {" }

  function Render(d: Description): string {
    Opening(d) + BodyText(d) + "}" + d.rest
  }

  // ----- the form -----

  predicate IsIdent(s: string) {
    StartsIdent(s) && forall i | 0 <= i < |s| :: IsWord(s[i])
  }

  /** No quote, backslash, brace, `=` or newline. */
  predicate IsPlain(s: string) {
    forall i | 0 <= i < |s| :: s[i] !in {'"', '\\', '{', '}', '=', '\n'}
  }

  /** Whether a text ends inside a string: an odd number of quotes. */
  predicate InString(s: string) {
    s != "" && (InString(s[..|s| - 1]) != (s[|s| - 1] == '"'))
  }

  /** No backslash, brace, `=` or newline; every string that is begun is ended. */
  predicate IsClosed(s: string) {
    (forall i | 0 <= i < |s| :: s[i] !in {'\\', '{', '}', '=', '\n'}) && !InString(s)
  }

  predicate ValidValue(v: Value) {
    match v
    case Quoted(t) => IsPlain(t)
    case Number(n) => true
    case Expr(t) => IsClosed(t) && t != "" && !IsSpace(t[0]) && !IsDigit(t[0]) && t[0] != '"'
  }

  predicate ValidAttr(a: Attr) {
    IsIdent(a.name) && ValidValue(a.value) && IsClosed(a.tail) && (a.tail != "" ==> a.tail[0] == ' ')
  }

  /** The words in front of a commented-out attribute do not run into its name. */
  predicate ValidMark(mark: Mark) {
    mark.Off? ==> IsClosed(mark.lead) && (mark.lead != "" ==> !IsWord(mark.lead[|mark.lead| - 1]))
  }

  /** Nothing that is part of a live line: blanks, or a comment. */
  predicate IsNote(s: string) {
    IsBlank(s) || StartsWith(LStrip(s), "#") || StartsWith(LStrip(s), "//")
  }

  predicate ValidLine(l: Line) {
    match l
    case Assign(mark, a) => ValidMark(mark) && ValidAttr(a) && (mark.Live? ==> IsNote(a.tail))
    case Plain(t) => IsClosed(t) && (t != "" ==> t[0] != '#')
    case Remark(t) => forall i | 0 <= i < |t| :: t[i] != '\n' && t[i] != '='
  }

  /** Inside a block no comment holds a brace; all of a block that is commented out is. */
  predicate ValidInside(mark: Mark, l: Line) {
    && ValidLine(l)
    && (l.Remark? ==> forall i | 0 <= i < |l.text| :: l.text[i] !in {'{', '}'})
    && (l.Assign? && mark.Off? ==> l.mark.Off?)
  }

  predicate ValidItem(item: Item) {
    match item
    case Single(l) => ValidLine(l)
    case Block(mark, _, name, _, _, lines) => ValidMark(mark) && IsIdent(name) && forall l | l in lines :: ValidInside(mark, l)
  }

  predicate ValidItems(items: seq<Item>) {
    forall i | 0 <= i < |items| :: ValidItem(items[i])
  }

  /** No module header starts in the preamble, which ends with a full line. */
  predicate ValidPreamble(s: string) {
    && (s != "" ==> s[|s| - 1] == '\n')
    && forall p | 0 <= p <= |s| :: ModuleWordAt(s, p) == None
  }

  predicate Valid(d: Description) {
    && ValidPreamble(d.preamble)
    && d.key != "" && (forall i | 0 <= i < |d.key| :: d.key[i] != '"')
    && IsPlain(d.dir) && IsPlain(d.tail)
    && ValidItems(d.items)
  }

  // ----- what the form says -----

  function LiteralOf(a: Attr): seq<ModuleField> {
    match a.value
    case Quoted(t) => [ModuleField(a.name, t)]
    case Number(n) => [ModuleField(a.name, Dec(n))]
    case Expr(_) => []
  }

  /** What a description says: the attributes of the module itself. */
  function ItemSaid(item: Item): seq<ModuleField> {
    match item
    case Single(Assign(Live, a)) => LiteralOf(a)
    case _ => []
  }

  function Said(items: seq<Item>): seq<ModuleField> {
    if items == [] then [] else ItemSaid(items[0]) + Said(items[1..])
  }

  /** What is read: every literal with nothing but blanks behind it, commented out or
      not, in a block or not. */
  function LineRead(l: Line): seq<ModuleField> {
    if l.Assign? && IsBlank(l.attr.tail) then LiteralOf(l.attr) else []
  }

  function LinesRead(lines: seq<Line>): seq<ModuleField> {
    if lines == [] then [] else LineRead(lines[0]) + LinesRead(lines[1..])
  }

  function ItemRead(item: Item): seq<ModuleField> {
    match item
    case Single(l) => LineRead(l)
    case Block(_, _, _, _, _, lines) => LinesRead(lines)
  }

  function Read(items: seq<Item>): seq<ModuleField> {
    if items == [] then [] else ItemRead(items[0]) + Read(items[1..])
  }

  predicate IsCountLine(l: Line, all: bool) {
    l.Assign? && (all || l.mark.Live?) && l.attr.name == "count" && l.attr.value.Number?
  }

  /** The first numeric count among some lines; `all` takes those commented out as well. */
  function FirstCount(lines: seq<Line>, all: bool): Option<nat> {
    if lines == [] then None
    else if IsCountLine(lines[0], all) then Some(lines[0].attr.value.n)
    else FirstCount(lines[1..], all)
  }

  /** The count of a block: 1 where it gives none. */
  function BlockCount(lines: seq<Line>, all: bool): nat { FirstCount(lines, all).GetOr(1) }

  predicate IsBlock(item: Item, name: string) { item.Block? && item.name == name }

  function FirstBlock(items: seq<Item>, name: string, all: bool): Option<seq<Line>> {
    if items == [] then None
    else if IsBlock(items[0], name) && (all || items[0].mark.Live?) then Some(items[0].lines)
    else FirstBlock(items[1..], name, all)
  }

  /** `<child>.count`: 1 where the block is absent. */
  function CountOf(items: seq<Item>, child: string, all: bool): nat {
    match FirstBlock(items, child, all)
    case None => 1
    case Some(lines) => BlockCount(lines, all)
  }

  /** What a description says: the module's own attributes and its two counts. */
  function Meaning(d: Description): Result<Static, ResolveError> {
    Assemble(Said(AllItems(d)), CountOf(d.items, "control_plane", false), CountOf(d.items, "workers", false))
  }
}
