/** Reading nested popups from the `*Popup` lines of the configuration (nPopup/nPopup.cpp). */
module PopupLoader {
  import opened Text

  /** A `*Popup` line, already split into its parts. Empty prefixes are inherited. */
  datatype Line =
    | EndNew
    | EndFolder
    | New(title: string, command: string, prefix: string)
    | Folder(title: string, icon: string, prefix: string)
    | Separator
    | Info(title: string, icon: string)
    | Command(title: string, command: string, icon: string)
    | Content(source: nat, title: string, icon: string, prefix: string)
    | ContentPath(path: string, title: string, icon: string, prefix: string)
    | ContentPathDynamic(path: string, title: string, icon: string, prefix: string)
    | Container(prefix: string)
    | Invalid

  datatype Level = InFolder | InNew | AtRoot

  datatype Item =
    | FolderItem(title: string, icon: string, popup: Popup)
    | ContentItem(source: nat, title: string, icon: string, prefix: string)
    | PathItem(path: string, dynamic: bool, title: string, icon: string, prefix: string)
    | CommandItem(title: string, command: string, icon: string)
    | InfoItem(title: string, icon: string)
    | SeparatorItem
    | ContainerItem(prefix: string)

  datatype Popup = Popup(title: string, bang: Option<string>, prefix: string, items: seq<Item>)

  function Inherit(prefix: string, parentPrefix: string): string {
    if prefix == "" then parentPrefix else prefix
  }

  // ----- What the loader computes

  /** The item a line adds by itself, if any. */
  function SingleItem(line: Line, prefix: string): seq<Item> {
    match line
    case Separator => [SeparatorItem]
    case Info(title, icon) => [InfoItem(title, icon)]
    case Command(title, command, icon) => [CommandItem(title, command, icon)]
    case Content(source, title, icon, own) => [ContentItem(source, title, icon, Inherit(own, prefix))]
    case ContentPath(path, title, icon, own) => [PathItem(path, false, title, icon, Inherit(own, prefix))]
    case ContentPathDynamic(path, title, icon, own) => [PathItem(path, true, title, icon, Inherit(own, prefix))]
    case Container(own) => [ContainerItem(own)]
    case _ => []
  }

  predicate Ends(line: Line, level: Level) {
    (line.EndFolder? && level.InFolder?) || (line.EndNew? && level.InNew?)
  }

  /** The items read from `lines` inside a popup, the lines left over, and whether the popup
      was ended by its own closing line. */
  datatype Body = Body(items: seq<Item>, rest: seq<Line>, ended: bool)

  function ReadBody(lines: seq<Line>, level: Level, prefix: string): (r: Body)
    requires !level.AtRoot?
    ensures |r.rest| <= |lines|
    ensures r.ended ==> |r.rest| < |lines|
    ensures !r.ended ==> r.rest == []
    decreases |lines|
  {
    if lines == [] then Body([], [], false)
    else if Ends(lines[0], level) then Body([], lines[1..], true)
    else if lines[0].Folder? then
      var own := Inherit(lines[0].prefix, prefix);
      var sub := ReadBody(lines[1..], InFolder, own);
      var more := ReadBody(sub.rest, level, prefix);
      Body([FolderItem(lines[0].title, lines[0].icon, Popup(lines[0].title, None, own, sub.items))] + more.items,
           more.rest, more.ended)
    else
      var more := ReadBody(lines[1..], level, prefix);
      Body(SingleItem(lines[0], prefix) + more.items, more.rest, more.ended)
  }

  /** All root popups of a configuration: stray lines between them are skipped, and a last one
      that is never closed is dropped. */
  function ReadAll(lines: seq<Line>, prefix: string): seq<Popup>
    decreases |lines|
  {
    if lines == [] then []
    else if !lines[0].New? then ReadAll(lines[1..], prefix)
    else
      var own := Inherit(lines[0].prefix, prefix);
      var body := ReadBody(lines[1..], InNew, own);
      if body.ended
      then [Popup(lines[0].title, Some(lines[0].command), own, body.items)] + ReadAll(body.rest, prefix)
      else []
  }

  // ----- The loader

  /** The `*Popup` lines of the configuration that have not been read yet. */
  class LineReader {
    var left: seq<Line>

    constructor (lines: seq<Line>)
      ensures left == lines
    {
      left := lines;
    }

    method ReadNext() returns (line: Option<Line>)
      modifies this
      ensures if old(left) == [] then line == None && left == []
              else line == Some(old(left)[0]) && left == old(left)[1..]
    {
      if left == [] {
        return None;
      }
      line := Some(left[0]);
      left := left[1..];
    }
  }

  /** The next step of `ReadBody`. */
  lemma ReadBodyStep(lines: seq<Line>, level: Level, prefix: string)
    requires !level.AtRoot?
    ensures lines == [] ==> ReadBody(lines, level, prefix) == Body([], [], false)
    ensures lines != [] && Ends(lines[0], level) ==> ReadBody(lines, level, prefix) == Body([], lines[1..], true)
    ensures lines != [] && !Ends(lines[0], level) && !lines[0].Folder? ==>
              var more := ReadBody(lines[1..], level, prefix);
              ReadBody(lines, level, prefix) == Body(SingleItem(lines[0], prefix) + more.items, more.rest, more.ended)
    ensures lines != [] && !Ends(lines[0], level) && lines[0].Folder? ==>
              var own := Inherit(lines[0].prefix, prefix);
              var sub := ReadBody(lines[1..], InFolder, own);
              var more := ReadBody(sub.rest, level, prefix);
              var item := FolderItem(lines[0].title, lines[0].icon, Popup(lines[0].title, None, own, sub.items));
              ReadBody(lines, level, prefix) == Body([item] + more.items, more.rest, more.ended)
  {
  }

  /** `whole` is `items` followed by what is still to be read. */
  ghost predicate Continues(whole: Body, items: seq<Item>, left: Body) {
    whole.items == items + left.items && whole.rest == left.rest && whole.ended == left.ended
  }

  lemma ContinueWith(whole: Body, items: seq<Item>, added: seq<Item>, next: Body)
    requires Continues(whole, items, Body(added + next.items, next.rest, next.ended))
    ensures Continues(whole, items + added, next)
  {
  }

  lemma ContinueToEnd(whole: Body, items: seq<Item>, rest: seq<Line>, ended: bool)
    requires Continues(whole, items, Body([], rest, ended))
    ensures whole == Body(items, rest, ended)
  {
  }

  lemma StartsWhole(whole: Body)
    ensures Continues(whole, [], whole)
  {
  }

  /** Handles a line that does not close the popup: the items it adds. A folder reads its own
      lines first. */
  method ItemsOf(f: LineReader, line: Line, parentPrefix: string) returns (items: seq<Item>)
    modifies f
    ensures |f.left| <= |old(f.left)|
    ensures line.Folder? ==>
              var own := Inherit(line.prefix, parentPrefix);
              var sub := ReadBody(old(f.left), InFolder, own);
              items == [FolderItem(line.title, line.icon, Popup(line.title, None, own, sub.items))] && f.left == sub.rest
    ensures !line.Folder? ==> items == SingleItem(line, parentPrefix) && f.left == old(f.left)
    decreases |f.left|, 2
  {
    hide ReadBody, SingleItem, Inherit;
    if line.Folder? {
      var own := Inherit(line.prefix, parentPrefix);
      ghost var sub := ReadBody(f.left, InFolder, own);
      var _, popup := LoadPopup(f, InFolder, Popup(line.title, None, own, []), own);
      assert [] + sub.items == sub.items;
      items := [FolderItem(line.title, line.icon, popup)];
    } else {
      items := SingleItem(line, parentPrefix);
    }
  }

  /** Fills a popup: adds items to `building` until its closing line. `ended` says that the
      closing line was reached before the end of the file. */
  method LoadPopup(f: LineReader, level: Level, building: Popup, parentPrefix: string) returns (ended: bool, out: Popup)
    requires !level.AtRoot?
    modifies f
    ensures var body := ReadBody(old(f.left), level, parentPrefix);
            && ended == body.ended && f.left == body.rest
            && out == building.(items := building.items + body.items)
    decreases |f.left|, 1
  {
    hide Continues, SingleItem, Inherit, ReadBody, Ends;
    ghost var whole := ReadBody(f.left, level, parentPrefix);
    var items: seq<Item> := [];
    StartsWhole(whole);
    while true
      invariant |f.left| <= |old(f.left)|
      invariant Continues(whole, items, ReadBody(f.left, level, parentPrefix))
      decreases |f.left|
    {
      ReadBodyStep(f.left, level, parentPrefix);
      var read := f.ReadNext();
      ended := read.Some? && Ends(read.value, level);
      if read.None? || ended {
        ContinueToEnd(whole, items, f.left, ended);
        return ended, building.(items := building.items + items);
      }
      var added := ItemsOf(f, read.value, parentPrefix);
      ContinueWith(whole, items, added, ReadBody(f.left, level, parentPrefix));
      items := items + added;
    }
  }

  /** One step at the root: one line is looked at; a `New` line starts a popup, anything else is
      skipped. `more` is false when the end of the file was reached, even inside a popup. */
  method LoadRootPopup(f: LineReader, parentPrefix: string) returns (more: bool, out: Option<Popup>)
    modifies f
    ensures more ==> |f.left| < |old(f.left)|
    ensures ReadAll(old(f.left), parentPrefix) ==
            (if more && out.Some? then [out.value] else []) + (if more then ReadAll(f.left, parentPrefix) else [])
  {
    hide ReadBody;
    ghost var here := f.left;
    var read := f.ReadNext();
    if read.None? {
      return false, None;
    }
    var line := read.value;
    assert here[0] == line && here[1..] == f.left;
    if line.New? {
      var own := Inherit(line.prefix, parentPrefix);
      ghost var body := ReadBody(f.left, InNew, own);
      var ended, popup := LoadPopup(f, InNew, Popup(line.title, Some(line.command), own, []), own);
      assert [] + body.items == body.items;
      return ended, Some(popup);
    }
    return true, None;
  }

  // ----- Root popups

  datatype Root = BuiltIn(title: string, command: string) | FromFile(popup: Popup)

  /** The bang command a root popup is registered under. */
  function BangOf(root: Root): string {
    match root
    case BuiltIn(_, command) => command
    case FromFile(popup) => if popup.bang.Some? then popup.bang.value else ""
  }

  function Predefined(): seq<Root> {[
    BuiltIn("Admin Tools", "!PopupAdminTools"),
    BuiltIn("Control Panel", "!PopupControlPanel"),
    BuiltIn("My Computer", "!PopupMyComputer"),
    BuiltIn("Network", "!PopupNetwork"),
    BuiltIn("Printers", "!PopupPrinters"),
    BuiltIn("Programs", "!PopupPrograms"),
    BuiltIn("Recent Documents", "!PopupRecentDocuments"),
    BuiltIn("Recycle Bin", "!PopupRecycleBin"),
    BuiltIn("Start Menu", "!PopupStartMenu")
  ]}

  const DEFAULT_PREFIX := "nPopup"

  function FromFiles(popups: seq<Popup>): seq<Root> {
    seq(|popups|, i requires 0 <= i < |popups| => FromFile(popups[i]))
  }

  /** `root` is the first of `roots` with the given bang. */
  ghost predicate IsFirst(roots: seq<Root>, bang: string, root: Root) {
    exists i :: 0 <= i < |roots| && roots[i] == root && Lower(BangOf(root)) == bang
                && forall j :: 0 <= j < i ==> Lower(BangOf(roots[j])) != bang
  }

  /** `registered` knows exactly the bangs of `roots`, each by the first popup that has it. */
  ghost predicate FirstWins(registered: map<string, Root>, roots: seq<Root>) {
    && (forall i :: 0 <= i < |roots| ==> Lower(BangOf(roots[i])) in registered)
    && (forall b :: b in registered ==> IsFirst(roots, b, registered[b]))
  }

  lemma StaysFirst(roots: seq<Root>, more: Root, bang: string, root: Root)
    requires IsFirst(roots, bang, root)
    ensures IsFirst(roots + [more], bang, root)
  {
    var i :| 0 <= i < |roots| && roots[i] == root && Lower(BangOf(root)) == bang
             && forall j :: 0 <= j < i ==> Lower(BangOf(roots[j])) != bang;
    assert (roots + [more])[i] == root;
  }

  lemma BecomesFirst(roots: seq<Root>, root: Root)
    requires forall i :: 0 <= i < |roots| ==> Lower(BangOf(roots[i])) != Lower(BangOf(root))
    ensures IsFirst(roots + [root], Lower(BangOf(root)), root)
  {
    assert (roots + [root])[|roots|] == root;
  }

  /** Adds a root popup; a bang that is taken keeps its popup. */
  method AddPopup(registered: map<string, Root>, root: Root, ghost roots: seq<Root>) returns (r: map<string, Root>)
    requires FirstWins(registered, roots)
    ensures FirstWins(r, roots + [root])
  {
    hide IsFirst, BangOf, Lower;
    var bang := Lower(BangOf(root));
    if bang in registered {
      r := registered;
    } else {
      r := registered[bang := root];
      BecomesFirst(roots, root);
    }
    forall b | b in registered ensures IsFirst(roots + [root], b, registered[b]) {
      StaysFirst(roots, root, b, registered[b]);
    }
  }

  method AddAll(registered: map<string, Root>, added: seq<Root>, ghost roots: seq<Root>) returns (r: map<string, Root>)
    requires FirstWins(registered, roots)
    ensures FirstWins(r, roots + added)
  {
    hide FirstWins;
    r := registered;
    assert roots + added[..0] == roots;
    for i := 0 to |added|
      invariant FirstWins(r, roots + added[..i])
    {
      r := AddPopup(r, added[i], roots + added[..i]);
      assert roots + added[..i + 1] == roots + added[..i] + [added[i]];
    }
    assert added[..|added|] == added;
  }

  /** Registers the predefined popups and then every popup of the configuration. */
  method LoadPopups(f: LineReader) returns (registered: map<string, Root>)
    modifies f
    ensures FirstWins(registered, Predefined() + FromFiles(ReadAll(old(f.left), "nPopup")))
  {
    hide ReadAll, Predefined, FirstWins, BangOf;
    ghost var whole := ReadAll(f.left, DEFAULT_PREFIX);
    ghost var loaded: seq<Popup> := [];
    NothingRegistered();
    registered := AddAll(map[], Predefined(), []);
    assert [] + Predefined() == Predefined() + FromFiles(loaded);
    assert loaded + whole == whole;
    var more := true;
    while more
      invariant more ==> whole == loaded + ReadAll(f.left, DEFAULT_PREFIX)
      invariant !more ==> whole == loaded
      invariant FirstWins(registered, Predefined() + FromFiles(loaded))
      decreases more, |f.left|
    {
      ghost var before := ReadAll(f.left, DEFAULT_PREFIX);
      var popup: Option<Popup>;
      more, popup := LoadRootPopup(f, DEFAULT_PREFIX);
      if more && popup.Some? {
        registered := AddPopup(registered, FromFile(popup.value), Predefined() + FromFiles(loaded));
        assert Predefined() + FromFiles(loaded) + [FromFile(popup.value)] == Predefined() + FromFiles(loaded + [popup.value]);
        assert loaded + before == loaded + [popup.value] + ReadAll(f.left, DEFAULT_PREFIX);
        loaded := loaded + [popup.value];
      }
    }
  }

  lemma NothingRegistered()
    ensures FirstWins(map[], [])
  {
  }
}
