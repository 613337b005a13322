/** The lines that ask for given items, and what is loaded from them. Written from the items
    alone, one case for each kind of item. */
module PopupItems {
  import opened Text
  import opened PopupLoader
  import opened PopupPrinting

  /** The line for an item that is not a folder. */
  function LineFor(item: Item): Line
    requires !item.FolderItem?
  {
    match item
    case InfoItem(title, icon) => Info(title, icon)
    case SeparatorItem => Separator
    case CommandItem(title, command, icon) => Command(title, command, icon)
    case ContentItem(source, title, icon, prefix) => Content(source, title, icon, prefix)
    case PathItem(path, dynamic, title, icon, prefix) =>
      if dynamic then ContentPathDynamic(path, title, icon, prefix) else ContentPath(path, title, icon, prefix)
    case ContainerItem(prefix) => Container(prefix)
  }

  /** The lines for items with their own prefixes, empty where none is written. */
  function Lines(items: seq<Item>): seq<Line> {
    if items == [] then []
    else
      (match items[0]
       case FolderItem(title, icon, popup) => [Folder(title, icon, popup.prefix)] + Lines(popup.items) + [EndFolder]
       case _ => [LineFor(items[0])])
      + Lines(items[1..])
  }

  /** The popup of a folder has the folder's title and no bang of its own. */
  predicate Plain(items: seq<Item>) {
    forall i :: 0 <= i < |items| && items[i].FolderItem? ==>
      items[i].popup.title == items[i].title && items[i].popup.bang == None && Plain(items[i].popup.items)
  }

  /** The same items with the prefix of the popup around them filled in where they have none;
      containers go without. */
  function Filled(items: seq<Item>, around: string): seq<Item> {
    if items == [] then []
    else [FilledItem(items[0], around)] + Filled(items[1..], around)
  }

  function FilledItem(item: Item, around: string): Item {
    match item
    case FolderItem(title, icon, popup) => FolderItem(title, icon, FilledPopup(popup, around))
    case _ => FilledLine(item, around)
  }

  function FilledLine(item: Item, around: string): Item
    requires !item.FolderItem?
  {
    match item
    case ContentItem(_, _, _, own) => item.(prefix := if own == "" then around else own)
    case PathItem(_, _, _, _, own) => item.(prefix := if own == "" then around else own)
    case _ => item
  }

  function FilledPopup(popup: Popup, around: string): Popup {
    var own := if popup.prefix == "" then around else popup.prefix;
    Popup(popup.title, popup.bang, own, Filled(popup.items, own))
  }

  function PopupLines(popups: seq<Popup>): seq<Line> {
    if popups == [] then []
    else
      [New(popups[0].title, if popups[0].bang.Some? then popups[0].bang.value else "", popups[0].prefix)]
      + Lines(popups[0].items) + [EndNew]
      + PopupLines(popups[1..])
  }

  predicate PlainPopups(popups: seq<Popup>) {
    forall i :: 0 <= i < |popups| ==> popups[i].bang.Some? && Plain(popups[i].items)
  }

  function FilledPopups(popups: seq<Popup>, around: string): seq<Popup> {
    if popups == [] then [] else [FilledPopup(popups[0], around)] + FilledPopups(popups[1..], around)
  }

  // ----- One item at a time

  lemma FirstFolder(items: seq<Item>, around: string, rest: seq<Line>)
    requires items != [] && items[0].FolderItem? && Plain(items)
    ensures Plain(items[0].popup.items) && Plain(items[1..])
    ensures var popup := items[0].popup;
            Lines(items) + rest == [Folder(items[0].title, items[0].icon, popup.prefix)] + (Lines(popup.items) + ([EndFolder] + (Lines(items[1..]) + rest)))
    ensures var popup := items[0].popup; var own := Inherit(popup.prefix, around);
            Filled(items, around) ==
              [FolderItem(items[0].title, items[0].icon, Popup(items[0].title, None, own, Filled(popup.items, own)))] + Filled(items[1..], around)
  {
    var popup := items[0].popup;
    var own := Inherit(popup.prefix, around);
    assert FilledPopup(popup, around) == Popup(items[0].title, None, own, Filled(popup.items, own));
    Regroup([Folder(items[0].title, items[0].icon, popup.prefix)], Lines(popup.items), [EndFolder], Lines(items[1..]), rest);
  }

  /** The line of any other item adds just that item. */
  lemma LineAdds(item: Item, around: string, level: Level)
    requires !item.FolderItem?
    ensures !LineFor(item).Folder? && !Ends(LineFor(item), level)
    ensures SingleItem(LineFor(item), around) == [FilledLine(item, around)]
  {
  }

  lemma FirstLine(items: seq<Item>, around: string, rest: seq<Line>)
    requires items != [] && !items[0].FolderItem? && Plain(items)
    ensures Plain(items[1..])
    ensures Lines(items) + rest == [LineFor(items[0])] + (Lines(items[1..]) + rest)
    ensures Filled(items, around) == [FilledLine(items[0], around)] + Filled(items[1..], around)
  {
    hide LineFor, FilledLine;
    Regroup([LineFor(items[0])], [], [], Lines(items[1..]), rest);
    assert [LineFor(items[0])] + [] + [] == [LineFor(items[0])];
    assert [] + ([] + (Lines(items[1..]) + rest)) == Lines(items[1..]) + rest;
  }

  lemma NoLines(around: string, rest: seq<Line>)
    ensures Lines([]) + rest == rest && Filled([], around) == []
  {
  }

  /** Reading the lines of items gives these items, prefixes filled in, and goes on behind them. */
  lemma {:induction false} ReadItems(items: seq<Item>, level: Level, around: string, rest: seq<Line>)
    requires !level.AtRoot? && Plain(items)
    ensures Continues(ReadBody(Lines(items) + rest, level, around), Filled(items, around), ReadBody(rest, level, around))
    decreases items
  {
    hide *;
    var whole, left := ReadBody(Lines(items) + rest, level, around), ReadBody(rest, level, around);
    if items == [] {
      NoLines(around, rest);
      StartsWhole(left);
    } else {
      var tail := Lines(items[1..]) + rest;
      var more := ReadBody(tail, level, around);
      if items[0].FolderItem? {
        FirstFolder(items, around, rest);
        var item := items[0];
        var own := Inherit(item.popup.prefix, around);
        ReadItems(item.popup.items, InFolder, own, [EndFolder] + tail);
        ReadItems(items[1..], level, around, rest);
        ReadFolder(Folder(item.title, item.icon, item.popup.prefix), Lines(item.popup.items), Filled(item.popup.items, own), tail, level, around);
        ContinueFrom(whole, [FolderItem(item.title, item.icon, Popup(item.title, None, own, Filled(item.popup.items, own)))],
                     more, Filled(items[1..], around), left);
      } else {
        var line := LineFor(items[0]);
        FirstLine(items, around, rest);
        LineAdds(items[0], around, level);
        ReadItems(items[1..], level, around, rest);
        ReadLine(line, tail, level, around);
        ContinueFrom(whole, SingleItem(line, around), more, Filled(items[1..], around), left);
      }
    }
  }

  /** Loading the lines of popups gives these popups, prefixes filled in. */
  lemma {:induction false} ReadPopups(popups: seq<Popup>, around: string, rest: seq<Line>)
    requires PlainPopups(popups)
    ensures ReadAll(PopupLines(popups) + rest, around) == FilledPopups(popups, around) + ReadAll(rest, around)
  {
    hide Lines, Filled, Plain, ReadAll;
    if popups == [] {
      assert PopupLines(popups) + rest == rest;
      assert FilledPopups(popups, around) + ReadAll(rest, around) == ReadAll(rest, around);
    } else {
      var popup := popups[0];
      var own := Inherit(popup.prefix, around);
      var tail := PopupLines(popups[1..]) + rest;
      ReadItems(popup.items, InNew, own, [EndNew] + tail);
      ReadPopup(popup.title, popup.bang.value, popup.prefix, Lines(popup.items), Filled(popup.items, own), tail, around);
      ReadPopups(popups[1..], around, rest);
      Regroup([New(popup.title, popup.bang.value, popup.prefix)], Lines(popup.items), [EndNew], PopupLines(popups[1..]), rest);
      PopupsRegroup([FilledPopup(popup, around)], FilledPopups(popups[1..], around), ReadAll(rest, around));
    }
  }

  // ----- What is loaded can be written

  lemma {:induction false} FilledAppend(a: seq<Item>, b: seq<Item>, around: string)
    ensures Filled(a + b, around) == Filled(a, around) + Filled(b, around)
  {
    hide FilledItem;
    if a == [] {
      assert a + b == b;
    } else {
      FilledAppend(a[1..], b, around);
      assert (a + b)[1..] == a[1..] + b;
    }
  }

  lemma PlainAppend(a: seq<Item>, b: seq<Item>)
    requires Plain(a) && Plain(b)
    ensures Plain(a + b)
  {
  }

  lemma SingleIsFilled(line: Line, around: string)
    ensures Plain(SingleItem(line, around)) && Filled(SingleItem(line, around), around) == SingleItem(line, around)
  {
  }

  lemma FolderIsFilled(title: string, icon: string, prefix: string, items: seq<Item>, around: string)
    requires Plain(items) && Filled(items, Inherit(prefix, around)) == items
    ensures var item := [FolderItem(title, icon, Popup(title, None, Inherit(prefix, around), items))];
            Plain(item) && Filled(item, around) == item
  {
    var item := [FolderItem(title, icon, Popup(title, None, Inherit(prefix, around), items))];
    assert item[1..] == [] && Filled([], around) == [];
    assert FilledPopup(item[0].popup, around) == item[0].popup;
  }

  /** Whatever is loaded has all its prefixes filled in. */
  lemma {:induction false} ReadIsFilled(lines: seq<Line>, level: Level, around: string)
    requires !level.AtRoot?
    ensures var items := ReadBody(lines, level, around).items; Plain(items) && Filled(items, around) == items
    decreases |lines|
  {
    hide *;
    ReadBodyStep(lines, level, around);
    if lines == [] || Ends(lines[0], level) {
      NoLines(around, []);
      NothingIsPlain();
    } else if lines[0].Folder? {
      var own := Inherit(lines[0].prefix, around);
      var sub := ReadBody(lines[1..], InFolder, own);
      ReadIsFilled(lines[1..], InFolder, own);
      ReadIsFilled(sub.rest, level, around);
      FolderIsFilled(lines[0].title, lines[0].icon, lines[0].prefix, sub.items, around);
      var item := FolderItem(lines[0].title, lines[0].icon, Popup(lines[0].title, None, own, sub.items));
      FilledAppend([item], ReadBody(sub.rest, level, around).items, around);
      PlainAppend([item], ReadBody(sub.rest, level, around).items);
    } else {
      ReadIsFilled(lines[1..], level, around);
      SingleIsFilled(lines[0], around);
      FilledAppend(SingleItem(lines[0], around), ReadBody(lines[1..], level, around).items, around);
      PlainAppend(SingleItem(lines[0], around), ReadBody(lines[1..], level, around).items);
    }
  }

  lemma NothingIsPlain()
    ensures Plain([])
  {
  }

  lemma {:induction false} LoadedIsFilled(lines: seq<Line>, around: string)
    ensures var popups := ReadAll(lines, around); PlainPopups(popups) && FilledPopups(popups, around) == popups
    decreases |lines|
  {
    hide ReadBody, Plain, Filled;
    if lines != [] && !lines[0].New? {
      LoadedIsFilled(lines[1..], around);
    } else if lines != [] {
      var own := Inherit(lines[0].prefix, around);
      var body := ReadBody(lines[1..], InNew, own);
      ReadIsFilled(lines[1..], InNew, own);
      if body.ended {
        LoadedIsFilled(body.rest, around);
        var popup := Popup(lines[0].title, Some(lines[0].command), own, body.items);
        assert FilledPopup(popup, around) == popup;
        assert ([popup] + ReadAll(body.rest, around))[1..] == ReadAll(body.rest, around);
      }
    }
  }

  /** Writing out the popups loaded from any lines and loading them again gives the same popups. */
  lemma SaveAndLoad(lines: seq<Line>, around: string)
    ensures ReadAll(PopupLines(ReadAll(lines, around)), around) == ReadAll(lines, around)
  {
    hide PopupLines, PlainPopups, FilledPopups;
    var popups := ReadAll(lines, around);
    LoadedIsFilled(lines, around);
    ReadPopups(popups, around, []);
    assert PopupLines(popups) + [] == PopupLines(popups);
    assert ReadAll([], around) == [];
    assert popups + [] == popups;
  }

  // ----- Misplaced lines

  /** Lines that have no business inside a popup add nothing there. */
  lemma MisplacedInside(line: Line, tail: seq<Line>, level: Level, around: string)
    requires line.New? || line.Invalid? || (line.EndFolder? && level.InNew?) || (line.EndNew? && level.InFolder?)
    requires !level.AtRoot?
    ensures ReadBody([line] + tail, level, around) == ReadBody(tail, level, around)
  {
    assert ([line] + tail)[1..] == tail;
    hide ReadBody;
    ReadBodyStep([line] + tail, level, around);
  }

  /** The line that closes the popup being read. */
  lemma ClosingInside(tail: seq<Line>, around: string)
    ensures ReadBody([EndNew] + tail, InNew, around) == Body([], tail, true)
    ensures ReadBody([EndFolder] + tail, InFolder, around) == Body([], tail, true)
  {
    assert ([EndNew] + tail)[1..] == tail && ([EndFolder] + tail)[1..] == tail;
    hide ReadBody;
    ReadBodyStep([EndNew] + tail, InNew, around);
    ReadBodyStep([EndFolder] + tail, InFolder, around);
  }

  // ----- Root popups by their bangs

  lemma FirstIsRegistered(registered: map<string, Root>, roots: seq<Root>, k: nat)
    requires FirstWins(registered, roots) && k < |roots|
    requires forall j :: 0 <= j < k ==> Lower(BangOf(roots[j])) != Lower(BangOf(roots[k]))
    ensures Lower(BangOf(roots[k])) in registered && registered[Lower(BangOf(roots[k]))] == roots[k]
  {
    hide BangOf, Lower;
    var bang := Lower(BangOf(roots[k]));
    var i :| 0 <= i < |roots| && roots[i] == registered[bang] && Lower(BangOf(roots[i])) == bang
             && forall j :: 0 <= j < i ==> Lower(BangOf(roots[j])) != bang;
  }

  lemma DifferentNames(a: string, b: string, i: nat)
    requires i < |a| && i < |b| && LowerChar(a[i]) != LowerChar(b[i])
    ensures Lower(a) != Lower(b)
  {
    assert Lower(a)[i] != Lower(b)[i];
  }

  function Initial(k: nat): char {
    if k == 0 then 'a' else if k == 1 then 'c' else if k == 2 then 'm' else if k == 3 then 'n'
    else if k <= 5 then 'p' else if k <= 7 then 'r' else 's'
  }

  lemma Initials(k: nat)
    requires k < 9
    ensures |Predefined()| == 9
    ensures var name := BangOf(Predefined()[k]); |name| >= 13 && LowerChar(name[6]) == Initial(k)
  {
  }

  lemma SameInitials()
    ensures |Predefined()| == 9
    ensures LowerChar(BangOf(Predefined()[4])[8]) != LowerChar(BangOf(Predefined()[5])[8])
    ensures LowerChar(BangOf(Predefined()[6])[9]) != LowerChar(BangOf(Predefined()[7])[9])
  {
  }

  /** No two predefined bangs are the same name. */
  lemma PredefinedNames(j: nat, k: nat)
    requires j < k < 9
    ensures |Predefined()| == 9 && Lower(BangOf(Predefined()[j])) != Lower(BangOf(Predefined()[k]))
  {
    hide Lower, LowerChar, Predefined, BangOf;
    Initials(j);
    Initials(k);
    SameInitials();
    var a, b := BangOf(Predefined()[j]), BangOf(Predefined()[k]);
    if j == 4 && k == 5 {
      DifferentNames(a, b, 8);
    } else if j == 6 && k == 7 {
      DifferentNames(a, b, 9);
    } else {
      DifferentNames(a, b, 6);
    }
  }

  /** A predefined bang shows its built-in popup, whatever is configured. */
  lemma BuiltInsStay(registered: map<string, Root>, popups: seq<Popup>, title: string, bang: string)
    requires FirstWins(registered, Predefined() + FromFiles(popups))
    requires (title, bang) in {
               ("Admin Tools", "!PopupAdminTools"), ("Control Panel", "!PopupControlPanel"), ("My Computer", "!PopupMyComputer"),
               ("Network", "!PopupNetwork"), ("Printers", "!PopupPrinters"), ("Programs", "!PopupPrograms"),
               ("Recent Documents", "!PopupRecentDocuments"), ("Recycle Bin", "!PopupRecycleBin"), ("Start Menu", "!PopupStartMenu")}
    ensures Lower(bang) in registered && registered[Lower(bang)] == BuiltIn(title, bang)
  {
    hide Lower, FirstWins;
    var roots := Predefined() + FromFiles(popups);
    var k := PlaceOf(title, bang);
    assert roots[k] == Predefined()[k];
    forall j | 0 <= j < k
      ensures Lower(BangOf(roots[j])) != Lower(BangOf(roots[k]))
    {
      PredefinedNames(j, k);
      assert roots[j] == Predefined()[j];
    }
    FirstIsRegistered(registered, roots, k);
  }

  lemma PlaceOf(title: string, bang: string) returns (k: nat)
    requires (title, bang) in {
               ("Admin Tools", "!PopupAdminTools"), ("Control Panel", "!PopupControlPanel"), ("My Computer", "!PopupMyComputer"),
               ("Network", "!PopupNetwork"), ("Printers", "!PopupPrinters"), ("Programs", "!PopupPrograms"),
               ("Recent Documents", "!PopupRecentDocuments"), ("Recycle Bin", "!PopupRecycleBin"), ("Start Menu", "!PopupStartMenu")}
    ensures k < 9 && |Predefined()| == 9 && Predefined()[k] == BuiltIn(title, bang)
  {
    k := if title == "Admin Tools" then 0 else if title == "Control Panel" then 1 else if title == "My Computer" then 2
         else if title == "Network" then 3 else if title == "Printers" then 4 else if title == "Programs" then 5
         else if title == "Recent Documents" then 6 else if title == "Recycle Bin" then 7 else 8;
  }

  /** Any other bang shows the first popup of the configuration that has it. */
  lemma ConfiguredShows(registered: map<string, Root>, popups: seq<Popup>, k: nat)
    requires FirstWins(registered, Predefined() + FromFiles(popups))
    requires k < |popups| && popups[k].bang.Some?
    requires forall i :: 0 <= i < 9 ==> !SameName(Predefined()[i].command, popups[k].bang.value)
    requires forall j :: 0 <= j < k ==> popups[j].bang.Some? && !SameName(popups[j].bang.value, popups[k].bang.value)
    ensures var bang := Lower(popups[k].bang.value); bang in registered && registered[bang] == FromFile(popups[k])
  {
    hide Lower, FirstWins;
    var roots := Predefined() + FromFiles(popups);
    assert |Predefined()| == 9 && roots[9 + k] == FromFile(popups[k]);
    forall j | 0 <= j < 9 + k
      ensures Lower(BangOf(roots[j])) != Lower(BangOf(roots[9 + k]))
    {
      if j < 9 {
        assert roots[j] == Predefined()[j];
      } else {
        assert roots[j] == FromFile(popups[j - 9]);
      }
    }
    FirstIsRegistered(registered, roots, 9 + k);
  }
}
