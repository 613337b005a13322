/** Loading what was written: the lines of nested popups rebuild those popups. */
module PopupPrinting {
  import opened Text
  import opened PopupLoader

  /** What stands inside a popup: a folder with its own lines, or a single line, which may also
      be one that has no business there. */
  datatype Node =
    | FolderNode(title: string, icon: string, prefix: string, body: seq<Node>)
    | LineNode(line: Line)

  /** What stands at the root: a popup with its lines, or a stray line. */
  datatype RootNode =
    | PopupNode(title: string, command: string, prefix: string, body: seq<Node>)
    | StrayNode(line: Line)

  predicate WellFormed(body: seq<Node>, level: Level) {
    forall i :: 0 <= i < |body| ==>
      match body[i]
      case FolderNode(_, _, _, inner) => WellFormed(inner, InFolder)
      case LineNode(line) => !line.Folder? && !Ends(line, level)
  }

  predicate RootsWellFormed(roots: seq<RootNode>) {
    forall i :: 0 <= i < |roots| ==>
      match roots[i]
      case PopupNode(_, _, _, body) => WellFormed(body, InNew)
      case StrayNode(line) => !line.New?
  }

  function Print(body: seq<Node>): seq<Line> {
    if body == [] then []
    else
      (match body[0]
       case FolderNode(title, icon, prefix, inner) => [Folder(title, icon, prefix)] + Print(inner) + [EndFolder]
       case LineNode(line) => [line])
      + Print(body[1..])
  }

  function PrintRoots(roots: seq<RootNode>): seq<Line> {
    if roots == [] then []
    else
      (match roots[0]
       case PopupNode(title, command, prefix, body) => [New(title, command, prefix)] + Print(body) + [EndNew]
       case StrayNode(line) => [line])
      + PrintRoots(roots[1..])
  }

  /** The items a body stands for: prefixes resolved, misplaced lines gone. */
  function Items(body: seq<Node>, prefix: string): seq<Item> {
    if body == [] then []
    else
      (match body[0]
       case FolderNode(title, icon, own, inner) =>
         [FolderItem(title, icon, Popup(title, None, Inherit(own, prefix), Items(inner, Inherit(own, prefix))))]
       case LineNode(line) => SingleItem(line, prefix))
      + Items(body[1..], prefix)
  }

  function Popups(roots: seq<RootNode>, prefix: string): seq<Popup> {
    if roots == [] then []
    else
      (match roots[0]
       case PopupNode(title, command, own, body) =>
         [Popup(title, Some(command), Inherit(own, prefix), Items(body, Inherit(own, prefix)))]
       case StrayNode(_) => [])
      + Popups(roots[1..], prefix)
  }

  lemma ContinueFrom(whole: Body, first: seq<Item>, more: Body, items: seq<Item>, left: Body)
    requires whole == Body(first + more.items, more.rest, more.ended) && Continues(more, items, left)
    ensures Continues(whole, first + items, left)
  {
  }

  lemma Regroup(first: seq<Line>, inner: seq<Line>, end: seq<Line>, more: seq<Line>, rest: seq<Line>)
    ensures (first + inner + end) + more + rest == first + (inner + (end + (more + rest)))
  {
  }

  /** What a folder in front of a body contributes. */
  lemma FolderFirst(body: seq<Node>, level: Level, prefix: string, rest: seq<Line>)
    requires body != [] && body[0].FolderNode? && WellFormed(body, level)
    ensures WellFormed(body[0].body, InFolder) && WellFormed(body[1..], level)
    ensures var node := body[0];
            Print(body) + rest == [Folder(node.title, node.icon, node.prefix)] + (Print(node.body) + ([EndFolder] + (Print(body[1..]) + rest)))
    ensures var node := body[0]; var sub := Inherit(node.prefix, prefix);
            Items(body, prefix) == [FolderItem(node.title, node.icon, Popup(node.title, None, sub, Items(node.body, sub)))] + Items(body[1..], prefix)
  {
    var node := body[0];
    Regroup([Folder(node.title, node.icon, node.prefix)], Print(node.body), [EndFolder], Print(body[1..]), rest);
  }

  /** What a line in front of a body contributes. */
  lemma LineFirst(body: seq<Node>, level: Level, prefix: string, rest: seq<Line>)
    requires body != [] && body[0].LineNode? && WellFormed(body, level)
    ensures !body[0].line.Folder? && !Ends(body[0].line, level) && WellFormed(body[1..], level)
    ensures Print(body) + rest == [body[0].line] + (Print(body[1..]) + rest)
    ensures Items(body, prefix) == SingleItem(body[0].line, prefix) + Items(body[1..], prefix)
  {
    hide SingleItem;
    Regroup([body[0].line], [], [], Print(body[1..]), rest);
    assert [body[0].line] + [] + [] == [body[0].line] && [] + ([] + (Print(body[1..]) + rest)) == Print(body[1..]) + rest;
  }

  lemma NothingPrinted(prefix: string, rest: seq<Line>)
    ensures Print([]) + rest == rest && Items([], prefix) == []
  {
  }

  /** Reading past a printed body gives its items and goes on with what follows it. */
  lemma {:induction false} ReadPrinted(body: seq<Node>, level: Level, prefix: string, rest: seq<Line>)
    requires !level.AtRoot? && WellFormed(body, level)
    ensures Continues(ReadBody(Print(body) + rest, level, prefix), Items(body, prefix), ReadBody(rest, level, prefix))
    decreases body
  {
    hide *;
    var whole, left := ReadBody(Print(body) + rest, level, prefix), ReadBody(rest, level, prefix);
    if body == [] {
      NothingPrinted(prefix, rest);
      StartsWhole(left);
    } else {
      var tail := Print(body[1..]) + rest;
      var more := ReadBody(tail, level, prefix);
      if body[0].FolderNode? {
        FolderFirst(body, level, prefix, rest);
        var node := body[0];
        var sub := Inherit(node.prefix, prefix);
        ReadPrinted(node.body, InFolder, sub, [EndFolder] + tail);
        ReadPrinted(body[1..], level, prefix, rest);
        ReadFolder(Folder(node.title, node.icon, node.prefix), Print(node.body), Items(node.body, sub), tail, level, prefix);
        ContinueFrom(whole, [FolderItem(node.title, node.icon, Popup(node.title, None, sub, Items(node.body, sub)))],
                     more, Items(body[1..], prefix), left);
      } else {
        LineFirst(body, level, prefix, rest);
        ReadPrinted(body[1..], level, prefix, rest);
        ReadLine(body[0].line, tail, level, prefix);
        ContinueFrom(whole, SingleItem(body[0].line, prefix), more, Items(body[1..], prefix), left);
      }
    }
  }

  lemma ReadLine(line: Line, tail: seq<Line>, level: Level, prefix: string)
    requires !level.AtRoot? && !line.Folder? && !Ends(line, level)
    ensures var more := ReadBody(tail, level, prefix);
            ReadBody([line] + tail, level, prefix) == Body(SingleItem(line, prefix) + more.items, more.rest, more.ended)
  {
    hide *;
    assert ([line] + tail)[1..] == tail;
    ReadBodyStep([line] + tail, level, prefix);
  }

  /** A folder consumes exactly its own lines. */
  lemma ReadFolder(line: Line, inner: seq<Line>, items: seq<Item>, tail: seq<Line>, level: Level, prefix: string)
    requires !level.AtRoot? && line.Folder?
    requires var own := Inherit(line.prefix, prefix);
             Continues(ReadBody(inner + ([EndFolder] + tail), InFolder, own), items, ReadBody([EndFolder] + tail, InFolder, own))
    ensures var own := Inherit(line.prefix, prefix);
            var more := ReadBody(tail, level, prefix);
            var item := FolderItem(line.title, line.icon, Popup(line.title, None, own, items));
            ReadBody([line] + (inner + ([EndFolder] + tail)), level, prefix) == Body([item] + more.items, more.rest, more.ended)
  {
    hide ReadBody, Inherit, Continues;
    var own := Inherit(line.prefix, prefix);
    var end := [EndFolder] + tail;
    var lines := [line] + (inner + end);
    ReadBodyStep(end, InFolder, own);
    assert end[1..] == tail;
    ContinueToEnd(ReadBody(inner + end, InFolder, own), items, tail, true);
    ReadBodyStep(lines, level, prefix);
    assert lines[1..] == inner + end;
  }

  /** What a popup in front of a list contributes. */
  lemma PopupFirst(roots: seq<RootNode>, prefix: string, rest: seq<Line>)
    requires roots != [] && roots[0].PopupNode? && RootsWellFormed(roots)
    ensures WellFormed(roots[0].body, InNew) && RootsWellFormed(roots[1..])
    ensures var node := roots[0];
            PrintRoots(roots) + rest == [New(node.title, node.command, node.prefix)] + (Print(node.body) + ([EndNew] + (PrintRoots(roots[1..]) + rest)))
    ensures var node := roots[0]; var sub := Inherit(node.prefix, prefix);
            Popups(roots, prefix) == [Popup(node.title, Some(node.command), sub, Items(node.body, sub))] + Popups(roots[1..], prefix)
  {
    hide WellFormed, Print, Items;
    var node := roots[0];
    Regroup([New(node.title, node.command, node.prefix)], Print(node.body), [EndNew], PrintRoots(roots[1..]), rest);
  }

  /** A stray line in front of a list contributes nothing. */
  lemma StrayFirst(roots: seq<RootNode>, prefix: string, rest: seq<Line>)
    requires roots != [] && roots[0].StrayNode? && RootsWellFormed(roots)
    ensures !roots[0].line.New? && RootsWellFormed(roots[1..])
    ensures PrintRoots(roots) + rest == [roots[0].line] + (PrintRoots(roots[1..]) + rest)
    ensures Popups(roots, prefix) == Popups(roots[1..], prefix)
  {
    hide WellFormed;
  }

  /** A popup at the root consumes exactly its own lines. */
  lemma ReadPopup(title: string, command: string, own: string, inner: seq<Line>, items: seq<Item>, tail: seq<Line>, prefix: string)
    requires var sub := Inherit(own, prefix);
             Continues(ReadBody(inner + ([EndNew] + tail), InNew, sub), items, ReadBody([EndNew] + tail, InNew, sub))
    ensures ReadAll([New(title, command, own)] + (inner + ([EndNew] + tail)), prefix)
         == [Popup(title, Some(command), Inherit(own, prefix), items)] + ReadAll(tail, prefix)
  {
    hide ReadBody, Inherit, Continues;
    var sub := Inherit(own, prefix);
    var end := [EndNew] + tail;
    var lines := [New(title, command, own)] + (inner + end);
    ReadBodyStep(end, InNew, sub);
    assert end[1..] == tail;
    ContinueToEnd(ReadBody(inner + end, InNew, sub), items, tail, true);
    assert lines[1..] == inner + end;
  }

  lemma SkipStray(line: Line, tail: seq<Line>, prefix: string)
    requires !line.New?
    ensures ReadAll([line] + tail, prefix) == ReadAll(tail, prefix)
  {
    assert ([line] + tail)[1..] == tail;
  }

  /** Loading the printed lines of any list of nested popups, stray lines in between included,
      rebuilds exactly those popups, in order, and goes on with what follows. */
  lemma {:induction false} LoadPrinted(roots: seq<RootNode>, prefix: string, rest: seq<Line>)
    requires RootsWellFormed(roots)
    ensures ReadAll(PrintRoots(roots) + rest, prefix) == Popups(roots, prefix) + ReadAll(rest, prefix)
  {
    if roots == [] {
      assert PrintRoots(roots) + rest == rest;
      assert Popups(roots, prefix) + ReadAll(rest, prefix) == ReadAll(rest, prefix);
    } else {
      hide *;
      var tail := PrintRoots(roots[1..]) + rest;
      if roots[0].PopupNode? {
        PopupFirst(roots, prefix, rest);
        LoadPrinted(roots[1..], prefix, rest);
        var node := roots[0];
        var sub := Inherit(node.prefix, prefix);
        ReadPrinted(node.body, InNew, sub, [EndNew] + tail);
        ReadPopup(node.title, node.command, node.prefix, Print(node.body), Items(node.body, sub), tail, prefix);
        PopupsRegroup([Popup(node.title, Some(node.command), sub, Items(node.body, sub))], Popups(roots[1..], prefix), ReadAll(rest, prefix));
      } else {
        StrayFirst(roots, prefix, rest);
        LoadPrinted(roots[1..], prefix, rest);
        SkipStray(roots[0].line, tail, prefix);
      }
    }
  }

  lemma PopupsRegroup(a: seq<Popup>, b: seq<Popup>, c: seq<Popup>)
    ensures a + (b + c) == (a + b) + c
  {
  }

  // ----- What is not written that way

  function Closing(level: Level): Line {
    if level.InFolder? then EndFolder else EndNew
  }

  lemma PrintsFolderFirst(title: string, icon: string, own: string, inner: seq<Node>, more: seq<Node>, tail: seq<Line>)
    ensures Print([FolderNode(title, icon, own, inner)] + more) + tail
         == [Folder(title, icon, own)] + (Print(inner) + ([EndFolder] + (Print(more) + tail)))
  {
    var body := [FolderNode(title, icon, own, inner)] + more;
    assert body[1..] == more;
    Regroup([Folder(title, icon, own)], Print(inner), [EndFolder], Print(more), tail);
  }

  lemma PrintsLineFirst(line: Line, more: seq<Node>, tail: seq<Line>)
    ensures Print([LineNode(line)] + more) + tail == [line] + (Print(more) + tail)
  {
    var body := [LineNode(line)] + more;
    assert body[1..] == more;
  }

  lemma WellFormedFirst(node: Node, more: seq<Node>, level: Level)
    requires WellFormed(more, level)
    requires if node.FolderNode? then WellFormed(node.body, InFolder) else !node.line.Folder? && !Ends(node.line, level)
    ensures WellFormed([node] + more, level)
  {
    hide Ends;
    var body := [node] + more;
    forall i | 0 <= i < |body|
      ensures match body[i] case FolderNode(_, _, _, inner) => WellFormed(inner, InFolder)
                            case LineNode(line) => !line.Folder? && !Ends(line, level)
    {
      if i > 0 {
        assert body[i] == more[i - 1];
      }
    }
  }

  /** Whatever was read up to its closing line was written as nested items. */
  lemma {:induction false} Rebuild(lines: seq<Line>, level: Level, prefix: string) returns (body: seq<Node>, rest: seq<Line>)
    requires !level.AtRoot? && ReadBody(lines, level, prefix).ended
    ensures WellFormed(body, level) && lines == Print(body) + ([Closing(level)] + rest)
    decreases |lines|
  {
    hide ReadBody, WellFormed, Print, Inherit, SingleItem;
    ReadBodyStep(lines, level, prefix);
    if lines == [] {
      body, rest := [], [];
      assert false;
    } else if Ends(lines[0], level) {
      body, rest := [], lines[1..];
      NothingWritten(level, [Closing(level)] + rest);
      assert lines == [lines[0]] + rest;
    } else if lines[0].Folder? {
      var line := lines[0];
      var own := Inherit(line.prefix, prefix);
      if !ReadBody(lines[1..], InFolder, own).ended {
        ReadBodyStep([], level, prefix);
      }
      var inner, tail := Rebuild(lines[1..], InFolder, own);
      RestBehind(inner, tail, own);
      var more, left := Rebuild(tail, level, prefix);
      body, rest := [FolderNode(line.title, line.icon, line.prefix, inner)] + more, left;
      WellFormedFirst(FolderNode(line.title, line.icon, line.prefix, inner), more, level);
      PrintsFolderFirst(line.title, line.icon, line.prefix, inner, more, [Closing(level)] + rest);
      assert lines == [line] + lines[1..];
    } else {
      var more, left := Rebuild(lines[1..], level, prefix);
      body, rest := [LineNode(lines[0])] + more, left;
      WellFormedFirst(LineNode(lines[0]), more, level);
      PrintsLineFirst(lines[0], more, [Closing(level)] + rest);
      assert lines == [lines[0]] + lines[1..];
    }
  }

  lemma NothingWritten(level: Level, tail: seq<Line>)
    ensures WellFormed([], level) && Print([]) + tail == tail
  {
  }

  /** Reading a printed body up to its closing line. */
  lemma ReadToClosing(body: seq<Node>, level: Level, prefix: string, rest: seq<Line>)
    requires !level.AtRoot? && WellFormed(body, level)
    ensures ReadBody(Print(body) + ([Closing(level)] + rest), level, prefix) == Body(Items(body, prefix), rest, true)
  {
    hide ReadBody, Inherit, Continues, WellFormed, Print, Items;
    var end := [Closing(level)] + rest;
    ReadPrinted(body, level, prefix, end);
    ReadBodyStep(end, level, prefix);
    assert end[1..] == rest;
    ContinueToEnd(ReadBody(Print(body) + end, level, prefix), Items(body, prefix), rest, true);
  }

  lemma RestBehind(inner: seq<Node>, tail: seq<Line>, own: string)
    requires WellFormed(inner, InFolder)
    ensures ReadBody(Print(inner) + ([EndFolder] + tail), InFolder, own).rest == tail
  {
    hide ReadBody, WellFormed, Print, Items;
    ReadToClosing(inner, InFolder, own, tail);
  }

  /** A popup or folder is ended exactly if its lines start as those of nested items do, every
      folder closed, with its own closing line behind them. */
  lemma EndedIffWritten(lines: seq<Line>, level: Level, prefix: string)
    requires !level.AtRoot?
    ensures ReadBody(lines, level, prefix).ended
       <==> exists body, rest :: WellFormed(body, level) && lines == Print(body) + ([Closing(level)] + rest)
  {
    hide ReadBody, WellFormed, Print, Items;
    if ReadBody(lines, level, prefix).ended {
      var body, rest := Rebuild(lines, level, prefix);
    }
    if body, rest :| WellFormed(body, level) && lines == Print(body) + ([Closing(level)] + rest) {
      ReadToClosing(body, level, prefix, rest);
    }
  }

  /** A popup at the root is kept exactly if its lines are closed in that way; otherwise it is lost,
      and with it everything behind it. */
  lemma KeptIffClosed(title: string, command: string, own: string, lines: seq<Line>, prefix: string)
    ensures var all := ReadAll([New(title, command, own)] + lines, prefix);
            if exists body, rest :: WellFormed(body, InNew) && lines == Print(body) + ([EndNew] + rest)
            then exists body, rest ::
                   && WellFormed(body, InNew) && lines == Print(body) + ([EndNew] + rest)
                   && all == [Popup(title, Some(command), Inherit(own, prefix), Items(body, Inherit(own, prefix)))] + ReadAll(rest, prefix)
            else all == []
  {
    hide ReadBody, WellFormed, Print, Items, Inherit;
    var sub := Inherit(own, prefix);
    EndedIffWritten(lines, InNew, sub);
    assert ([New(title, command, own)] + lines)[1..] == lines;
    if body, rest :| WellFormed(body, InNew) && lines == Print(body) + ([EndNew] + rest) {
      ReadToClosing(body, InNew, sub, rest);
    }
  }

  /** Whatever the lines are, they are those of some popups and stray lines, which is what is
      loaded, and a last popup that is never closed, if there is one. */
  lemma {:induction false} LoadedIsWritten(lines: seq<Line>, prefix: string) returns (roots: seq<RootNode>, left: seq<Line>)
    ensures RootsWellFormed(roots) && lines == PrintRoots(roots) + left && ReadAll(lines, prefix) == Popups(roots, prefix)
    ensures left != [] ==> left[0].New? && !ReadBody(left[1..], InNew, Inherit(left[0].prefix, prefix)).ended
    decreases |lines|
  {
    hide ReadBody, WellFormed, Print, Items, Inherit;
    if lines == [] {
      roots, left := [], [];
    } else if !lines[0].New? {
      var more;
      more, left := LoadedIsWritten(lines[1..], prefix);
      roots := [StrayNode(lines[0])] + more;
      assert roots[1..] == more;
      assert lines == [lines[0]] + lines[1..];
      assert [lines[0]] + (PrintRoots(more) + left) == ([lines[0]] + PrintRoots(more)) + left;
    } else {
      var line := lines[0];
      var sub := Inherit(line.prefix, prefix);
      if ReadBody(lines[1..], InNew, sub).ended {
        var body, rest := Rebuild(lines[1..], InNew, sub);
        ReadToClosing(body, InNew, sub, rest);
        var more;
        more, left := LoadedIsWritten(rest, prefix);
        roots := [PopupNode(line.title, line.command, line.prefix, body)] + more;
        assert roots[1..] == more;
        Regroup([line], Print(body), [EndNew], PrintRoots(more), left);
        assert lines == [line] + lines[1..];
      } else {
        roots, left := [], lines;
      }
    }
  }

  /** Behind other popups, a popup is lost, with all that follows, exactly if its lines are not
      closed in that way; the ones before it are not lost. */
  lemma DroppedIffUnclosed(roots: seq<RootNode>, title: string, command: string, own: string, lines: seq<Line>, prefix: string)
    requires RootsWellFormed(roots)
    ensures ReadAll(PrintRoots(roots) + ([New(title, command, own)] + lines), prefix) == Popups(roots, prefix)
       <==> !exists body, rest :: WellFormed(body, InNew) && lines == Print(body) + ([EndNew] + rest)
  {
    hide *;
    var before, all := Popups(roots, prefix), ReadAll([New(title, command, own)] + lines, prefix);
    LoadPrinted(roots, prefix, [New(title, command, own)] + lines);
    KeptIffClosed(title, command, own, lines, prefix);
    assert |before + all| == |before| + |all|;
    assert all == [] ==> before + all == before;
  }

  /** In particular, a popup whose lines all lie inside it is lost. */
  lemma UnfinishedIsDropped(roots: seq<RootNode>, title: string, command: string, own: string, body: seq<Node>, prefix: string)
    requires RootsWellFormed(roots) && WellFormed(body, InNew)
    ensures ReadAll(PrintRoots(roots) + ([New(title, command, own)] + Print(body)), prefix) == Popups(roots, prefix)
  {
    hide ReadBody, Inherit, Continues;
    var sub := Inherit(own, prefix);
    var lines := [New(title, command, own)] + Print(body);
    LoadPrinted(roots, prefix, lines);
    ReadPrinted(body, InNew, sub, []);
    ReadBodyStep([], InNew, sub);
    ContinueToEnd(ReadBody(Print(body) + [], InNew, sub), Items(body, sub), [], false);
    assert lines[1..] == Print(body) + [];
    assert ReadAll(lines, prefix) == [];
    assert Popups(roots, prefix) + [] == Popups(roots, prefix);
  }

  /** An open folder swallows the closing line of its popup, and every popup behind it. */
  lemma OpenFolderSwallows(a: Line, f: Line, b: Line, prefix: string)
    requires a.New? && f.Folder? && b.New?
    ensures ReadAll([a, f, EndNew, b, EndNew], prefix) == []
  {
    var inside := [EndNew, b, EndNew];
    var own := Inherit(a.prefix, prefix);
    var sub := Inherit(f.prefix, own);
    assert [a, f, EndNew, b, EndNew][1..] == [f] + inside;
    assert ([f] + inside)[1..] == inside && inside[1..] == [b, EndNew] && [b, EndNew][1..] == [EndNew] && [EndNew][1..] == [];
    hide ReadBody, Inherit;
    ReadBodyStep([], InFolder, sub);
    ReadBodyStep([EndNew], InFolder, sub);
    ReadBodyStep([b, EndNew], InFolder, sub);
    ReadBodyStep(inside, InFolder, sub);
    ReadBodyStep([], InNew, own);
    ReadBodyStep([f] + inside, InNew, own);
  }
}
