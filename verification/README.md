# Verified model of the nModules cores

nModules is a set of Windows shell modules. Most of its code talks to Windows; this project models
the parts that compute something on their own, and proves what they promise. Code that changes
things step by step is modelled in the same form, with classes, heap links, arrays and loops, and
each such method is proved against a function or an invariant whose own properties are lemmas.

`dafny verify dfyconfig.toml` checks everything.

* **CRC-32** (`Crc32`, `Crc32Detection`, `Crc32Values`). The loop that takes eight bytes at a time with eight tables,
  and the bytewise tail, compute the bit-at-a-time CRC of section 8 of RFC 1952, for both byte orders
  and every data and previous value. Hence a CRC can be computed in pieces, and no error confined to
  32 consecutive bits of two messages of equal length goes unseen. That it is this code and no other
  is said by its residue and its check value.
* **States** (`StateGraph`, `StateRender`, `TaskButtonStates`). Activating and clearing states over any
  dependency graph, even a cyclic one, ends and keeps the drawn state the greatest active one. What is
  active is the least set that follows from the primitive states switched on, so no order of calls
  can be told from another. The recursive steps keep only a weaker bound while they are under way.
* **Dynamic text** (`DynamicText`, `DynamicTextPrinting`, `ParsedTexts`). The mode machine with its
  backtracking ends on every text and finds the tokens of a recursive reader; the tokens spell the
  text, every call found is well formed, and texts written as documented are parsed into what was
  written, exactly if every bracket in the words between the calls is one from which the parser backs
  up within those words. Evaluation into a bounded buffer gives the clipped text, and the table of
  functions knows exactly the living texts that call each function.
* **Popups** (`PopupChain`, `PopupDesktop`). Chains of popups linked through the heap in both
  directions: opening, closing and losing the focus keep the links mutual, and closing any popup of a
  chain closes all of it and nothing else.
* **Popup loader** (`PopupLoader`, `PopupPrinting`, `PopupItems`). The recursive reader of popup lines;
  the printed lines of any nested popups rebuild those popups, whatever is loaded was written that
  way, and writing out what was loaded and loading it again changes nothing.
* **Settings** (`GroupChains`, `Settings`). Chains of fallback groups are built for every
  configuration, however circular; their shape is characterised completely, and children and
  appended groups have the chains they should.
* **Colors** (`Colors`, `HexColors`, `ColorParser`, `ColorPrinting`). The parser with constant folding
  agrees with the unfolded expression on every string, and reads back every expression as written.
* **Windows and their parents** (`WindowRegistrar`). Children wait for absent parents, are adopted,
  and are orphaned again; parents and children stay inverse, and nobody is both linked and listed.
* **Tiles** (`Layout`, `TileGroups`). Positions are handed out lowest first, fill rows or columns from
  the start corner on, and no two tiles overlap.
* **Folder loader** (`LoaderProtocol`, `FileSystemLoader`). Every interleaving of requests, workers,
  cancellations and messages.

Where the code and its comments differ, the model follows the code. These things follow from that:

* A dynamic text accepts any character right behind `[`, so a call's name may start with anything
  (`DynamicText.TokensAreGood` says what the rest must look like), and a bracket right in front of a
  call becomes part of its name (`DynamicTextPrinting.BracketJoinsCall`). When words let the call behind
  them be found is said exactly by `DynamicTextPrinting.FoundIffHarmless`.
* The circularity check of group chains runs before the own prefix joins the trail, so a group that
  names itself appears twice at the end (`GroupChains.SelfGroupRepeats` gives one;
  `GroupChains.RepeatsOnlySelfGroup`: nothing else ever does).
* A popup is dropped, not registered, with every popup behind it, exactly if its lines are not those of
  nested items, every folder closed, with its own closing line behind them
  (`PopupPrinting.DroppedIffUnclosed`); one open folder is enough (`PopupPrinting.OpenFolderSwallows`).
* When two windows register one name, the second takes it over, and the destructor of either erases
  it, so that a living registered window may not be found (`WindowRegistrar.TwoOfOneName`). Names keep
  finding their windows exactly as long as no window registers a name that another living one has
  (`WindowRegistrar.Window.Initialize`); the invariant survives either way.
* Nothing stops a window from naming itself, or a window below it, as its parent
  (`WindowRegistrar.NamesItself`). No state has a circle (`WindowRegistrar.Registrar.NoCircles`), and
  adopting windows leaves none exactly if none of them is the new parent or above it
  (`WindowRegistrar.AdoptionDescends`); otherwise the recursion over children has no measure to go by.

## Model

| member | source | states |
|---|---|---|
| `Crc32.LookupMeaning` | Utilities/CRC32.cpp:31-288 | entry i of table k is the byte i shifted through the register by 8(k+1) bit steps |
| `Crc32.SliceMeaning` | Utilities/CRC32.cpp:326-333 | four consecutive tables shift a whole word through the register |
| `Crc32.RoundMeaning` | Utilities/CRC32.cpp:318-344 | one round of the eight-byte loop, in either byte order, absorbs exactly the next eight bytes |
| `Crc32.TailMeaning` | Utilities/CRC32.cpp:348-350 | one round of the tail loop absorbs exactly the next byte |
| `Crc32.Crc32` | Utilities/CRC32.cpp:313-352 | the two loops return the bit-at-a-time CRC for every data, previous value and byte order |
| `Crc32Detection.CrcInPieces` | Utilities/CRC32.cpp:309-313 | the CRC of a concatenation is the CRC of the second part continued from that of the first, wherever it is split |
| `Crc32Detection.RegisterIsAbsorb` | Utilities/CRC32.cpp:348-350 | the register is linear in the bits of the data, taken lowest first |
| `Crc32Detection.DifferenceSurvives` | Utilities/CRC32.cpp:28-28 | a difference in the register is never lost, whatever follows, because the polynomial has its top bit |
| `Crc32Detection.BurstsAreDetected` | Utilities/CRC32.cpp:313-352 | two messages of equal length that differ, only within 32 consecutive bits, have different CRCs |
| `Crc32Detection.FourByteBurstsAreDetected` | Utilities/CRC32.cpp:313-352 | the same for any four consecutive bytes with anything before and behind |
| `Crc32Values.SecondEntry` | Utilities/CRC32.cpp:32-32 | the first entry of the tables that is not zero is the one written in the source |
| `Crc32Values.Residue` | Utilities/CRC32.cpp:313-352 | any data followed by its own CRC, lowest byte first, has the CRC 0x2144DF1C, whatever the previous value |
| `Crc32Values.CheckValue` | Utilities/CRC32.cpp:313-352 | the CRC of the digits from 1 to 9 is 0xCBF43926 |
| `StateGraph.DerivedIsActive` | nShared/StateRender.hpp:67-83 | where no state is missing, everything that can be derived from active primitives is active |
| `StateGraph.SettledIsConsistent` | nShared/StateRender.hpp:58-119 | in a settled window a dependent state is active exactly when all its dependencies are |
| `StateGraph.HistoryIndependence` | nShared/StateRender.hpp:58-136 | two settled windows with the same primitives on have the same states active and draw the same one; the runs that lead there are in `StateRender.AnyRun` and `StateRender.AnyRunFromStart` |
| `StateGraph.OnlyOwnCallsMatter` | nShared/StateRender.hpp:58-137 | whether a primitive ends up on depends only on the calls made for it |
| `StateGraph.InterleavingDoesNotMatter` | nShared/StateRender.hpp:58-137 | runs with the same calls for each primitive leave the same primitives on, however interleaved |
| `StateGraph.FollowsIffRootsOn` | nShared/StateRender.hpp:67-83 | in an acyclic graph a state follows exactly when every primitive it depends on, directly or not, is on |
| `StateRender.StateRender.Load` | nShared/StateRender.hpp:173-189 | the dependent lists are exactly the dependency lists turned around |
| `StateRender.StateRender.DependenciesActive` | nShared/StateRender.hpp:69-77 | true exactly when all dependencies are active |
| `StateRender.SwitchedOn` | nShared/StateRender.hpp:63-67 | switching one state on leaves only its dependents as possibly missing |
| `StateRender.SwitchedOff` | nShared/StateRender.hpp:104-117 | switching one state off leaves only its dependents as active in excess |
| `StateRender.StateRender.Activate` | nShared/StateRender.hpp:58-91 | the recursion: ends on any graph, activates only what follows, leaves nothing missing, and bounds the drawn state outside the pending states |
| `StateRender.StateRender.ActivateState` | nShared/StateRender.hpp:58-91 | the drawn state is the greatest active one; a primitive joins the settled set |
| `StateRender.StateRender.StepDown` | nShared/StateRender.hpp:110-110 | the drawn state moves down to the greatest active one, or to Base |
| `StateRender.StateRender.Clear` | nShared/StateRender.hpp:97-119 | the recursion: ends on any graph and leaves nothing active in excess |
| `StateRender.StateRender.ClearState` | nShared/StateRender.hpp:97-119 | the drawn state is the greatest active one; a primitive leaves the settled set |
| `StateRender.StateRender.ToggleState` | nShared/StateRender.hpp:125-137 | flips a state, with the outcome of the one or the other |
| `StateRender.AnyRun` | nShared/StateRender.hpp:58-137 | after any run of calls on primitive states, the base state included where it is not cleared, exactly the primitives those calls leave on are on, and the window is settled |
| `StateRender.AnyRunFromStart` | nShared/StateRender.hpp:58-189 | a new window, after any run: a state is active exactly when it follows from the primitives the calls leave on; in an acyclic graph, exactly when every primitive it depends on, directly or not, is one of them |
| `StateGraph.NothingActiveIsSettled` | nShared/StateRender.hpp:58-119 | a new window, with nothing active, is settled and draws Base |
| `TaskButtonStates.GraphIsRanked` | nTasks/ButtonSettings.cpp:22-42 | the graph of the taskbar buttons is acyclic |
| `TaskButtonStates.CombinedStates` | nTasks/ButtonSettings.cpp:27-42 | whatever happened before, a combined state is active exactly when the plain states it combines are, through the two-level diamond |
| `TaskButtonStates.DrawnState` | nTasks/ButtonSettings.cpp:22-42 | which of the ten states is drawn, given whether the button is minimized, flashing, active and hovered |
| `DynamicText.TokensSpellText` | nCore/ParsedText.cpp:205-350 | the tokens of a text, from any position and after any failed attempts, spell the text |
| `DynamicText.TokensAreGood` | nCore/ParsedText.cpp:241-302 | every call found is a name, letters and digits (in any locale) behind its first character, with quoted arguments that it was taken apart into |
| `DynamicTextPrinting.ReadCall` | nCore/ParsedText.cpp:250-302 | a call as documented is read whole, with its arguments |
| `DynamicTextPrinting.ParsePrinted` | nCore/ParsedText.cpp:205-350 | at any position, texts mixing calls with harmless words are parsed into exactly the words and calls written, also when the words hold brackets from which the parser has to back up |
| `DynamicTextPrinting.ParsedIffHarmless` | nCore/ParsedText.cpp:205-350 | a text with documented calls is parsed into what was written exactly if all its words are harmless and no call is found behind the last one |
| `DynamicTextPrinting.FoundIffHarmless` | nCore/ParsedText.cpp:205-350 | a documented call is found behind some words exactly if the words are harmless, whatever follows it |
| `DynamicTextPrinting.HarmfulMisses` | nCore/ParsedText.cpp:237-323 | in other words the parser finds a call too early, or passes over the bracket behind them |
| `DynamicTextPrinting.PlainTextsParse` | nCore/ParsedText.cpp:205-350 | texts without brackets between their calls are parsed into what was written |
| `DynamicTextPrinting.Sample` | nCore/ParsedText.cpp:205-350 | a text with a call with two arguments and one with none, and its tokens |
| `DynamicTextPrinting.WordsSkipped` | nCore/ParsedText.cpp:237-323 | from every bracket whose attempt fails within the words, the parser backs up and comes to the call behind them |
| `DynamicTextPrinting.BracketJoinsCall` | nCore/ParsedText.cpp:239-268 | words that are not harmless: a bracket right in front of a call becomes part of the call's name |
| `DynamicTextPrinting.TokensAt` | nCore/ParsedText.cpp:205-350 | what is found behind some position does not depend on what stands before it |
| `ParsedTexts.ParsedText.Parse` | nCore/ParsedText.cpp:205-350 | the mode machine ends on every text with exactly its tokens, and every attempt starts at a later bracket of the text than the one before |
| `ParsedTexts.NameStep` | nCore/ParsedText.cpp:250-267 | one step of reading a name keeps the cursor in the text and leaves the same tokens to be found |
| `ParsedTexts.ArgumentsStep` | nCore/ParsedText.cpp:269-302 | one step of reading arguments, with all its ways to fail, keeps the cursor in the text and leaves the same tokens to be found |
| `ParsedTexts.ParsedText.AddToken` | nCore/ParsedText.cpp:178-188 | a token more, and this text among the users of its function |
| `ParsedTexts.ParsedText.constructor` | nCore/ParsedText.cpp:90-94 | a new living text with the tokens of its string, known to the functions it calls |
| `ParsedTexts.ParsedText.Release` | nCore/ParsedText.cpp:100-114 | the text is gone and no function knows it; every other text is known as before |
| `ParsedTexts.CopyString` | nCore/ParsedText.cpp:151-151 | appends what fits of a string, with its terminator |
| `ParsedTexts.ClipIsPrefix` | nCore/ParsedText.cpp:151-151 | what fits is the whole string, or as much from its beginning as leaves room for the terminator |
| `ParsedTexts.EvaluateToken` | nCore/ParsedText.cpp:148-168 | appends a text, the value of a registered function, or the call in its brackets |
| `ParsedTexts.ParsedText.Evaluate` | nCore/ParsedText.cpp:144-172 | the buffer holds exactly what the tokens evaluate to, terminated, never beyond its end |
| `ParsedTexts.ClipAppend` | nCore/ParsedText.cpp:162-164 | clipping piece by piece is clipping the whole |
| `ParsedTexts.RenderedIsMeaning` | nCore/ParsedText.cpp:144-172 | evaluation gives the text with its calls replaced by their values, cut off where the buffer ends |
| `ParsedTexts.SampleMeaning` | nCore/ParsedText.cpp:144-172 | what a text with a registered and an unregistered function evaluates to |
| `ParsedTexts.UnregisteredReproduces` | nCore/ParsedText.cpp:144-172 | with no function registered, every text evaluates to itself, cut off where the buffer ends |
| `ParsedTexts.FunctionTable.FindDynamicTextFunction` | nCore/ParsedText.cpp:24-33 | a missing function is created unregistered; nothing else changes |
| `ParsedTexts.FunctionTable.Register` | nCore/ParsedText.cpp:43-48 | sets the formatter and keeps the users |
| `ParsedTexts.FunctionTable.UnRegister` | nCore/ParsedText.cpp:56-60 | the function is unregistered and exactly its users are notified |
| `ParsedTexts.FunctionTable.DynamicTextChangeNotification` | nCore/ParsedText.cpp:68-74 | exactly the living texts that call the function and have a handler are notified, once each |
| `PopupChain.Popup.Show` | nPopup/Popup.cpp:246-297 | owner, visibility and direction after showing, given whether the popup fits on the side it was to open |
| `PopupChain.Popup.CloseChild` | nPopup/Popup.cpp:103-119 | closes the chain below although the back link is cut first |
| `PopupChain.Popup.Close` | nPopup/Popup.cpp:154-170 | ends and closes the part of the chain it is called on, in whichever direction is left |
| `PopupDesktop.AboveIsJoined` | nPopup/Popup.cpp:145-151 | following owners upward gives a properly linked chain |
| `PopupDesktop.BelowIsJoined` | nPopup/Popup.cpp:145-151 | following open children downward gives a properly linked chain |
| `PopupDesktop.ChainOfIsChain` | nPopup/Popup.cpp:122-136 | between calls every popup is part of exactly one complete chain |
| `PopupDesktop.ChainIsIsolated` | nPopup/Popup.cpp:122-136 | no popup outside a chain is linked to one inside |
| `PopupDesktop.Close` | nPopup/Popup.cpp:154-170 | hides the whole chain up and down, undoes all its links, touches no other popup, keeps the invariant |
| `PopupDesktop.CloseChild` | nPopup/Popup.cpp:103-119 | closes everything below and keeps the popup open |
| `PopupDesktop.OpenChild` | nPopup/Popup.cpp:122-136 | the child is open below its parent, what was open before is closed down to the last popup, links are mutual |
| `PopupDesktop.MouseMove` | nPopup/FolderItem.cpp:73-84 | the item is marked open exactly when its popup is, and the invariant holds again |
| `PopupDesktop.CheckFocusUp` | nPopup/Popup.cpp:145-151 | looking upward covers this popup and all above it |
| `PopupDesktop.CheckFocusDown` | nPopup/Popup.cpp:145-151 | looking downward covers this popup and all below it |
| `PopupDesktop.CheckFocusCoversChain` | nPopup/Popup.cpp:145-151 | asked in both directions, the check covers exactly the whole chain |
| `PopupDesktop.Deactivate` | nPopup/Popup.cpp:310-319 | the chain closes exactly when the focus and the mouse are on none of its popups |
| `PopupDesktop.ShowRoot` | nPopup/Popup.cpp:173-297 | a popup shown by its bang is visible at the top of its chain, and the invariant holds |
| `PopupDesktop.NothingOpen` | nPopup/Popup.cpp:122-170 | the invariant holds of popups just made, so of every run |
| `PopupLoader.LoadPopup` | nPopup/nPopup.cpp:252-382 | inside a popup: adds exactly its items, prefixes inherited, consumes exactly its lines, and says whether it was ended |
| `PopupLoader.LoadRootPopup` | nPopup/nPopup.cpp:257-273 | at the root: one popup, or one stray line skipped |
| `PopupLoader.AddPopup` | nPopup/nPopup.cpp:186-190 | a bang that is taken keeps its popup |
| `PopupLoader.LoadPopups` | nPopup/nPopup.cpp:196-219 | registers the predefined popups and all popups of the lines, each bang with the first popup that has it |
| `PopupPrinting.ReadPrinted` | nPopup/nPopup.cpp:274-369 | reading past the lines of any nested items gives those items and continues with what follows |
| `PopupPrinting.LoadPrinted` | nPopup/nPopup.cpp:196-382 | the printed lines of any nested popups, stray lines included, rebuild exactly those popups in order |
| `PopupPrinting.EndedIffWritten` | nPopup/nPopup.cpp:274-379 | a popup or folder is ended exactly if its lines start as printed nested items do, with its own closing line behind them |
| `PopupPrinting.KeptIffClosed` | nPopup/nPopup.cpp:257-381 | a popup at the root is kept, with exactly those items, exactly if its lines are closed in that way; otherwise nothing is loaded from there on |
| `PopupPrinting.DroppedIffUnclosed` | nPopup/nPopup.cpp:213-219 | the same behind any popups, which are not lost |
| `PopupPrinting.LoadedIsWritten` | nPopup/nPopup.cpp:196-382 | any lines at all are those of the popups that are loaded and of stray lines, with at most an unclosed popup behind them |
| `PopupPrinting.UnfinishedIsDropped` | nPopup/nPopup.cpp:372-381 | a popup whose lines up to the end of the file all lie inside it is lost |
| `PopupPrinting.OpenFolderSwallows` | nPopup/nPopup.cpp:276-308 | lines with an open folder: it swallows the closing line of its popup and the popup behind |
| `PopupItems.ReadItems` | nPopup/nPopup.cpp:274-369 | reading the lines of any nested items, of every kind, gives these items and goes on behind them; an item or folder without a prefix has the one of the popup around it |
| `PopupItems.ReadPopups` | nPopup/nPopup.cpp:196-382 | loading the lines of popups gives these popups, with titles, bangs, items, and prefixes filled in |
| `PopupItems.SaveAndLoad` | nPopup/nPopup.cpp:196-382 | writing out the popups loaded from any lines and loading them again gives the same popups |
| `PopupItems.MisplacedInside` | nPopup/nPopup.cpp:287-368 | a line that has no business inside a popup or folder adds nothing there |
| `PopupItems.ClosingInside` | nPopup/nPopup.cpp:284-308 | the closing line of a popup or folder ends it and adds nothing |
| `PopupPrinting.SkipStray` | nPopup/nPopup.cpp:266-271 | at the root, a line that starts no popup is skipped |
| `PopupItems.BuiltInsStay` | nPopup/nPopup.cpp:186-210 | each predefined bang shows its built-in popup, whatever is configured |
| `PopupItems.ConfiguredShows` | nPopup/nPopup.cpp:186-219 | any other bang shows the first popup of the configuration that has it |
| `GroupChains.TrailGrows` | nShared/Settings.cpp:119-151 | every group followed uses up one Group setting, so construction ends |
| `GroupChains.GroupChainIsGroupChain` | nShared/Settings.cpp:105-152 | for every configuration the chain follows the Group settings as far as possible without coming back |
| `GroupChains.GroupChainUnique` | nShared/Settings.cpp:105-152 | that describes the chain completely |
| `GroupChains.RepeatsOnlySelfGroup` | nShared/Settings.cpp:119-151 | two entries have the same name exactly when they are the last two and the group names itself |
| `GroupChains.SelfGroupRepeats` | nShared/Settings.cpp:119-151 | a configuration whose one group names itself, and its chain: the name twice |
| `GroupChains.LookupIsFirst` | nShared/Settings.cpp:253-255 | a lookup gives the value at the first prefix that has one, else the default |
| `GroupChains.NamedByPrefixAndKey` | nShared/LiteStep.cpp:158-166 | a setting is named by prefix and key, in this order and in any case; the first one of a chain is taken if it is there and makes sense |
| `GroupChains.MissingIsPassed` | nShared/Settings.cpp:253-255 | otherwise the setting is looked up in the rest of the chain |
| `GroupChains.LookupFallsBack` | nShared/Settings.cpp:85-89 | what is appended to a chain serves as its default |
| `GroupChains.PlainChild` | nShared/Settings.cpp:57-78 | where no groups are set, the prefixes of a child are those of its parent, in order, each with the suffix behind it |
| `GroupChains.ChildChainAppend` | nShared/Settings.cpp:57-78 | a child of a single prefix has the group chain of that prefix with the suffix behind it; for longer chains these follow each other |
| `Text.SameNameMeaning` | Utilities/StringUtils.h:184-198 | names are the same exactly when they differ at most in the case of letters |
| `Settings.Settings.Get` | nShared/Settings.cpp:253-255 | the recursive getter is the lookup along the chain |
| `Settings.Settings.Create` | nShared/Settings.cpp:22-25 | builds the group chain of the prefix |
| `Settings.Settings.CreateGroup` | nShared/Settings.cpp:105-152 | the group, unless there is none or it is on the trail |
| `Settings.Settings.Copy` | nShared/Settings.cpp:32-39 | a deep copy with the same chain, sharing nothing |
| `Settings.Settings.AppendGroup` | nShared/Settings.cpp:85-89 | the old chain followed by a fresh copy of the other, even when they are the same object |
| `Settings.Settings.CreateChild` | nShared/Settings.cpp:57-78 | the group chains of every prefix with the suffix added, one behind the other |
| `Colors.CopyIsSame` | nShared/BinaryColorVal.cpp:64-67 | copies are equal |
| `Colors.EvaluateNowCorrects` | nShared/DWMColorVal.cpp:36-59 | evaluating against the system is evaluating with the corrected system color |
| `Colors.CorrectedColor` | nShared/DWMColorVal.cpp:36-49 | the correction keeps the lower 24 bits of the system color |
| `Colors.CorrectedAlpha` | nShared/DWMColorVal.cpp:36-49 | it makes a color without alpha opaque, unless it is zero, and leaves all others |
| `Colors.FoldPreserves` | nShared/ColorParser.cpp:310-354 | folding changes no color and leaves a constant exactly where the DWM color is not involved |
| `HexColors.HexRoundTrip` | nShared/ColorParser.cpp:255-289 | every color can be written in eight digits and read back |
| `HexColors.ShortHex` | nShared/ColorParser.cpp:265-272 | three digits mean the same as the opaque color with every digit doubled |
| `HexColors.ShortHexWithAlpha` | nShared/ColorParser.cpp:265-272 | four digits mean the same as eight with every digit doubled |
| `HexColors.SixDigits` | nShared/ColorParser.cpp:274-276 | six digits mean the same as eight of an opaque color |
| `HexColors.EightNibbles` | nShared/ColorParser.cpp:257-280 | eight digits are the eight nibbles of the color, highest first |
| `HexColors.DigitsByPlace` | nShared/ColorParser.cpp:257-257 | the value of each digit is its place among the sixteen, in either case |
| `HexColors.NoOtherDigits` | nShared/ColorParser.cpp:257-260 | no other character is a digit |
| `HexColors.OtherLengths` | nShared/ColorParser.cpp:263-284 | a string of any other length is no color |
| `ColorParser.GetParameters` | nShared/ColorParser.cpp:148-195 | the scanning loop splits a call at its commas at depth zero only, blanks behind them dropped |
| `ColorParser.ParseIsFoldedTree` | nShared/ColorParser.cpp:308-354 | on every string, computing constant calls on the spot gives the folded expression, and fails for the same strings |
| `ColorParser.ParsedValue` | nShared/ColorParser.cpp:248-374 | the parsed value has the color of the unfolded expression for every DWM color, and is constant exactly when that color is not in it |
| `ColorPrinting.PrintScans` | nShared/ColorParser.cpp:156-192 | every written expression keeps its parentheses balanced, so the scan passes over it |
| `ColorPrinting.ThreeParams` | nShared/ColorParser.cpp:148-195 | a call with nested arguments is split into exactly its arguments |
| `ColorPrinting.FourParams` | nShared/ColorParser.cpp:148-195 | the same for four arguments |
| `ColorPrinting.LiteralCalls` | nShared/ColorParser.cpp:291-301 | on any string: a call of RGB, HSL or HSV is a color exactly if it has three parameters and the function takes them, one of the six others exactly if it has four |
| `ColorPrinting.UnaryCalls` | nShared/ColorParser.cpp:303-320 | a call of one of the eleven unary functions is a color exactly if it has two parameters, a color and an amount, and is that function of them |
| `ColorPrinting.MixCalls` | nShared/ColorParser.cpp:322-358 | a call of Mix is a color exactly if it has three parameters, two colors and a weight, and is their mixture |
| `ColorPrinting.OtherStrings` | nShared/ColorParser.cpp:360-373 | a string that is neither hexadecimal nor a call of any of these functions is the DWM color, a named color, or no color |
| `ColorPrinting.WrittenParses` | nShared/ColorParser.cpp:248-374 | every expression as written, of all kinds, nested to any depth, names in any case, is read back |
| `ColorPrinting.WrittenColors` | nShared/ColorParser.cpp:248-374 | its value has the right color for every DWM color, and is constant exactly when it does not mention that color |
| `ColorPrinting.MixedInOrder` | nShared/ColorParser.cpp:335-354 | the colors of a mixture are mixed in the order they are written in |
| `ColorPrinting.AppliedByName` | nShared/ColorParser.cpp:303-317 | a call of a unary function, by its name, applies that function to its color and amount |
| `WindowRegistrar.Registrar.RegisterWindow` | nCore/WindowRegistrar.cpp:22-28 | every waiting window, in order, becomes a child of the new one and waits no more; all else is unchanged |
| `WindowRegistrar.ListsAfterAdoption` | nCore/WindowRegistrar.cpp:24-27 | clearing one list keeps every other orphan listed once under its own name |
| `WindowRegistrar.ListsAfterRemoving` | nCore/WindowRegistrar.cpp:50-52 | a window removed under its parent's name is listed nowhere |
| `WindowRegistrar.WithoutInOrder` | nCore/WindowRegistrar.cpp:50-52 | the windows that stay listed keep their order |
| `WindowRegistrar.Window.Named` | nShared/Window.cpp:105-120 | a new child is linked if its parent is registered, else listed once, and the invariant holds |
| `WindowRegistrar.Window.CreateChild` | nShared/Window.cpp:381-386 | a new child linked to its maker, and the invariant holds |
| `WindowRegistrar.Window.Initialize` | nShared/Window.cpp:847-858 | registering adopts exactly the windows waiting for the name; the invariant is lost exactly by taking back a registration that the registry or a child relies on; names keep finding their windows exactly if no other living registered window has this one |
| `WindowRegistrar.Window.UpdateParentVariables` | nShared/Window.cpp:1467-1482 | ends, and every window below has the handle of its parent again |
| `WindowRegistrar.Window.SetParent` | nShared/Window.cpp:1488-1502 | links both ways; its assertion that there is no parent yet is a precondition that every caller meets |
| `WindowRegistrar.Window.ParentLeft` | nShared/Window.cpp:1002-1012 | an orphan without a handle, listed under its parent's name if it has one |
| `WindowRegistrar.Window.Destroy` | nShared/Window.cpp:188-231 | nobody refers to the window any more; exactly its children are orphans, and the named ones wait |
| `WindowRegistrar.LinkedOrWaiting` | nShared/Window.cpp:105-120 | in every state a window that names its parent is linked once or listed once, never both, and never waits for a registered name |
| `WindowRegistrar.Registrar.NoCircles` | nShared/Window.cpp:1467-1502 | in every state no window is above its own parent, so following parents and children ends |
| `WindowRegistrar.NobodyWaitsForTheLiving` | nCore/WindowRegistrar.cpp:22-48 | as long as every living registered window is found by its name, nobody waits for such a name |
| `WindowRegistrar.TwoOfOneName` | nCore/WindowRegistrar.cpp:31-33 | two windows register one name and the first goes: the second lives on and is not found |
| `WindowRegistrar.AdoptionDescends` | nShared/Window.cpp:1467-1502 | adopting orphans leaves windows that can be ranked below their parents exactly if none of them is the adopting window or above it |
| `WindowRegistrar.NamesItself` | nShared/Window.cpp:105-120 | a window that names itself as its parent waits for itself, and adopting it would leave no such ranking |
| `Layout.ItemsPerRowIsMaximal` | nShared/LayoutSettings.cpp:82-84 | n items fit into a row exactly when n is at most the result, which is at least one |
| `Layout.ItemsPerColumnIsMaximal` | nShared/LayoutSettings.cpp:74-76 | the same for columns |
| `Layout.RectsDisjoint` | nShared/LayoutSettings.cpp:98-152 | different positions have disjoint rectangles, for every corner and direction |
| `Layout.InsideIffWithinLimit` | nShared/LayoutSettings.cpp:90-152 | a rectangle keeps clear of the padding exactly when one item fits and the position is below the limit |
| `Layout.StartsInCorner` | nShared/LayoutSettings.cpp:119-148 | position 0 touches the padding on the two sides that meet at the start corner; every rectangle has the item size |
| `Layout.NextAlongRows` | nShared/LayoutSettings.cpp:112-148 | along rows: the next position is one item and the spacing further from the start side, in the same row, or begins the next row |
| `Layout.NextAlongColumns` | nShared/LayoutSettings.cpp:105-148 | the same along columns |
| `TileGroups.TileGroup.GetIconPosition` | nIcon/TileGroup.cpp:305-312 | the least empty spot, or the next new one |
| `TileGroups.TileGroup.ItemLoaded` | nIcon/TileGroup.cpp:233-241 | the new tile has the least unused position, at most the number of tiles, and is inside the padding while there is room |
| `TileGroups.TileGroup.FolderLoaded` | nIcon/TileGroup.cpp:224-230 | one tile more for every item, in order, behind the ones there were |
| `TileGroups.TileGroup.RemoveIcon` | nIcon/TileGroup.cpp:267-277 | exactly the tiles of the item go, and exactly their positions become empty |
| `TileGroups.OthersInOrder` | nIcon/TileGroup.cpp:267-277 | the tiles that stay keep their order |
| `TileGroups.NoMoreThanTiles` | nIcon/TileGroup.cpp:305-312 | the least unused position is at most the number of tiles |
| `TileGroups.TileGroup.TilesDisjoint` | nIcon/TileGroup.cpp:233-241 | no two tiles overlap, after any loads and removals |
| `TileGroups.TileGroup.InsideIffBelowLimit` | nIcon/TileGroup.cpp:233-241 | a tile is inside the padding exactly when its position is below the limit |
| `LoaderProtocol.EveryRun` | nCore/FileSystemLoader.cpp:157-299 | every sequence of actions, however the threads interleave, keeps the invariant of state and history |
| `LoaderProtocol.NeverTwiceNeverAfterCancel` | nCore/FileSystemLoader.cpp:234-299 | ids are never reused, no handler is called twice for one id, and none after that id was cancelled |
| `LoaderProtocol.OnlyFullAnswers` | nCore/FileSystemLoader.cpp:182-228 | whoever is called asked before, is the handler given then, and gets all entries not on the black list, in order |
| `LoaderProtocol.WhatIsAnswered` | nCore/FileSystemLoader.cpp:182-228 | the answer of a folder holds the items at increasing places, exactly of the entries that have a name which is not on the black list; a folder that cannot be enumerated gives none, an item request its item |
| `LoaderProtocol.AnsweredOrCancelled` | nCore/FileSystemLoader.cpp:283-299 | a request whose worker is done was answered or cancelled |
| `LoaderProtocol.EveryRequestCanBeAnswered` | nCore/FileSystemLoader.cpp:182-299 | from every point of every run, a request neither cancelled nor answered is answered once its worker takes its bounded number of steps: its own handler gets the full answer |
| `LoaderProtocol.WorkersGetOn` | nCore/FileSystemLoader.cpp:182-212 | a worker left alone has the full answer ready in a bounded number of steps, a cancelled one ends without sending |
| `FileSystemLoader.Worker.Step` | nCore/FileSystemLoader.cpp:188-212 | one turn of the worker's loop, or its check, is one step of the protocol |
| `FileSystemLoader.Loader.LoadFolder` | nCore/FileSystemLoader.cpp:234-247 | a request is the protocol's action: a new id, a new entry, a new worker with its own flag |
| `FileSystemLoader.Loader.LoadFolderItem` | nCore/FileSystemLoader.cpp:253-266 | the same for a single item |
| `FileSystemLoader.Loader.CancelLoad` | nCore/FileSystemLoader.cpp:272-277 | raises the flag of that request only and forgets the request |
| `FileSystemLoader.Loader.Receive` | nCore/FileSystemLoader.cpp:283-299 | the handler of an outstanding request is called with the response, nobody otherwise |

## Left out

- Everything that draws, moves or talks to Windows: painting, timers, messages, COM, shell folders, scripts, media players. Hiding, showing and repainting are flags or counters, and messages sent while a window is being hidden or shown are not re-entered.
- Fixed buffer sizes and raw memory: prefixes, names, parameters and lines are taken to fit, and an expression to have fewer than 256 arguments.
- `Crc32.LookupMeaning`: speaks of tables given by their recurrence from the polynomial, not of the 2048 numbers written out in the source.
- `Utilities/CRC64.cpp`: is a stub.
- The conversions of the color functions, which use floats and truncated hues: literal, unary and mix functions, the C library's number parsers beyond plain hexadecimal digits, and the named colors are arbitrary functions (`Colors.Lib`).
- How a popup line is split into its parts; a content line's leftover command buffer is not carried into the popup it makes.
- `StateRender.StateRender.ClearState`: takes states other than Base only, as its assertion asks; toggling an active Base is excluded for the same reason.
- `DynamicTextPrinting.ParsedIffHarmless`: takes names that start with a letter or digit, as documented; the parser takes others too.
- `PopupChain.Popup.Show`: whether the popup fits is a parameter, and where it is put is not modelled.
- Case is folded for ASCII letters only.
- `ParsedTexts.ParsedText.Release`: is the only way a text is disposed of here; the handler of a text is a flag and a count of its calls, and the entry of a function stands for the iterator a token keeps.
- `ParsedTexts.ParsedText.Evaluate`: takes a formatter to be a function that writes fewer characters than the room it is given, and a terminator.
- `WindowRegistrar.Window.Named`: takes a parent name that is not empty; windows made by their parent have an empty one.
- `WindowRegistrar.Window.Initialize`: takes a window that no one waiting for its name is above, since the code has no way to end otherwise (`WindowRegistrar.AdoptionDescends`); placing the window and creating its resources are not modelled.
- `Layout.RectsDisjoint`: takes item sizes to be positive and spacing not to be negative.
- `TileGroups.TileGroup.TilesDisjoint`: takes the size of the group not to change while it has tiles.
- `LoaderProtocol.NeverTwiceNeverAfterCancel`: takes fewer than 2^64 requests to be made. Thumbnails, and the enumerator's own errors, are not modelled; a worker's check of its flag and its taking of the next entry are one step.
- `FileSystemLoader.Loader.CancelLoad`: takes an outstanding id, as its assertion asks. An answered request stays in the map, as in the code; the flag outlives its worker.
- Sizing popups, distances in settings, event handlers and click handlers, version checks, the UID generator, enum arrays and string maps.
