# IPCop: verified models of the installer and helper algorithms

IPCop is a Linux firewall distribution. Most of its own C code drives dialogs and other programs;
this project models the parts that compute something, and proves what they promise:

- **Network cards** (`Net*.dfy`): the table of cards that the installer fills by matching devices to
  detected hardware, the dialog that gives colours to cards, the settings that go with the colours, and
  the udev rules written at the end.
- **USB names** (`Usb*.dfy`): the bit-folding hash, the chained hash tables, and the parser of the ids file
  with its sticky context.
- **Settings** (`Kv*.dfy`): the key/value list, its file format, and the parser of the kernel command line.
- **Message catalogues** (`Mo*.dfy`): loading a file in the MO format in either byte order, and lookup. The
  format is that of the GNU gettext manual, section "The Format of GNU MO Files".
- **Bandwidth on demand** (`Smoothing.dfy`, `Ibod.dfy`): the smoothing filter and the controller of the second
  ISDN channel.
- **Buffers and numbers**: in-place trimming (`TrimLine.dfy`), `strlcat` (`Strlcat.dfy`), dotted quads
  (`ValidIp.dfy`), partition sizes (`Partition.dfy`) and the default DHCP range (`DhcpRange.dfy`).
- `Wrappers.dfy`, `Sequences.dfy`, `Positions.dfy`, `Bitwise.dfy`, `Decimals.dfy` and `CStrings.dfy` hold what these
  share.

Code that changes state step by step is a class or a method with loops, and its contract ties the new state
to a function of the old one; the lemmas then say what that function does in terms of fields, texts, keys and
numbers, and prove what follows. A run of the card list is a
sequence of actions (probe a module, configure a card, press "done", open the dialog again), a run of the
controller is a sequence of ticks, a session with the settings is a load, a sequence of changes, a save and a
reload. Dialog answers, directory listings, sysfs, file contents, clocks and ioctl results are inputs. `unsigned`
and `unsigned long` have 32 bits, as on the i486 builds; wrap-around is written out.

`dafny verify dfyconfig.toml` checks everything.

## What the proofs brought to light

Where a natural claim about the code is false, the model keeps the code as it is and states when the claim
holds.

- A colour can be given to a card without a device. Nothing is wrong then, but the next probe may fill that card
  and leave the settings with an empty device name (`NetRuns.CarelessRunDisagrees`). A run keeps cards, settings
  and udev rules in step all along exactly when no probe gives a device to a coloured card
  (`NetRuns.RunIsInStepIffGentle`); and what the user does is safe, whatever the system answers, exactly when no
  module is loaded while a coloured card of that module has no device (`NetRuns.ScriptIsSafeIffDressed`).
- A scan of an installed system may list a device twice (`NetStart.RepeatedDeviceIsListedTwice`): it does so, or
  lists a hidden device, exactly when a device that the settings name is attached while it is listed or hidden
  (`NetScan.ScanIsSoundIff`); likewise for colours (`NetScan.ScanIsUniqueIff`).
- The settings of an installed system are in step with the cards found for it exactly when each colour counts one
  card or none and every device named is attached to hardware with the driver and address noted. A card made up
  for undetected hardware shows the driver that was read last, since all of these cards share one buffer
  (`NetStart.SetupStartsInStepIff`).
- The dialog for manual cards is meant to report SUCCESS when there is an additional interface. Without options it
  reports SUCCESS when the probe fails and stays open when it succeeds: the module that closed the dialog has added
  a device if and only if options were typed with it (`NetManual.SuccessHasAddedIffOptions`), and the whole dialog
  has, however it ends, exactly when that is so or some module typed before had none (`NetManual.DialogAddsIff`).
- An indented line under a header whose id is 2^32 - 1 is refused, since that id reads as "no header"
  (`UsbParse.IndentedKey`).
- Saving and reloading reverses the settings list. A key whose first and last values differ then changes its value
  (`KvSession.ReloadTurnsFirstIntoLast`, `KvSession.DuplicatesFlip`). A save that cannot lock the file has emptied
  it already (`KvFile.WriteKvToFile`).
- `must_swap` is never cleared: after a catalogue in the other byte order, one in the machine's own order loads
  only if it happens to be readable the other way round (`MoReading.LoadsIffReadable`,
  `MoImage.LoadsIffFlagMatches`).
- A further load can break lookups: a table that cannot be read leaves null strings to be compared or returned, and
  a file without the magic number overwrites the count of the tables in use (`MoReading.BadMagicBreaksLookup`).
  Lookups stay safe exactly when no catalogue was in use, there is no file, a file without the magic number (or cut
  short in its header) has a count word that is not above the tables in use, or a file with it has no strings or can
  be read (`MoReading.LoadIsSafeIff`).
- Trimming a last line without a line end that starts with blanks leaves a copy of its tail behind the text; a
  line of blanks only runs off the front of the buffer (`TrimLine.TrimInPlace`, `TrimLine.OpenLineIsNotTrimmed`).
- A swap size asked for, of 227 to 256 MiB, can leave no room for the log partition
  (`Partition.LogSurvivesIffSwapAtMost226`, `Partition.ForcedSwapOvercommits`).
- The default DHCP range is wrong for the lower host of a /30 and for 255.255.255.254 (`DhcpRange.GreenRange`).

## Model

| member | source | states |
|---|---|---|
| NetTable.Table.FilterNet | src/installer/networking.c:121-149 | a directory entry is kept exactly when it is none of lo, ., .., tun*, wmaster* and no card has it as its device |
| NetTable.Table.ScanDir | src/installer/networking.c:178-182 | the devices found are the kept entries, in the order of the directory |
| NetTable.Table.MatchDevice | src/installer/networking.c:188-226 | one device goes to the first empty slot with its non-empty ids, else to the first empty slot with its known module, else nowhere |
| NetTable.Table.AssignScanned | src/installer/networking.c:184-227 | without a module, every new device is matched in turn against the table as the earlier ones left it |
| NetTable.Table.AssignLoaded | src/installer/networking.c:231-241 | with a module, its empty slots take the new devices in order; what is left over is the rest of the device list |
| NetTable.Table.AppendCards | src/installer/networking.c:243-260 | every device left over becomes a new card without colour or ids |
| NetTable.Table.ProbeCard | src/installer/networking.c:155-269 | the table after a call, for all three paths and both failures, and the result code |
| NetTable.ProbeKeeps | src/installer/networking.c:121-269 | a call keeps non-empty device names pairwise distinct and never assigns a hidden device |
| NetMatch.ProbeGrows | src/installer/networking.c:184-261 | a call never overwrites a filled slot and changes at most device and address of an empty one |
| NetMatch.ProbeIsMaximal | src/installer/networking.c:184-227 | after a call without module, a visible device left over could take no empty slot by its ids, nor by its known module |
| NetMatch.ProbeIsJustified | src/installer/networking.c:184-227 | a slot filled by such a call got a scanned device, with its address, by ids, or by module when no empty slot has the ids |
| NetMatch.FillByDriverIsJustified | src/installer/networking.c:231-241 | a slot changed after loading a module was empty, belongs to that module, and got one of the new devices with its address |
| NetMatch.LoadedModuleServes | src/installer/networking.c:228-261 | after loading a module every visible device is listed, or cards may not be appended and no empty slot of the module is left |
| NetMatch.RunKeepsSound | src/installer/networking.c:121-269 | over any sequence of calls device names stay distinct, hidden devices unassigned, and filled slots unchanged |
| NetCalls.ShownIsKept | src/installer/networking.c:121-149 | the filter keeps exactly the entries other than lo, ., .., tun* and wmaster* that are the device of no card |
| NetCalls.ScanIsShown | src/installer/networking.c:178-182 | the devices found are the entries at the places that show such a device, in rising order |
| NetCalls.ResultOfCall | src/installer/networking.c:155-269 | the result is 0 if there is no module or it loads, and some entry shows a new device, and 1 otherwise; then nothing changes |
| NetCalls.LoadedCall | src/installer/networking.c:228-261 | field by field: the j-th slot of the loaded module gets the j-th device shown and its MAC; each one left over becomes a card with the module, the options, the description and its MAC, no colour and no ids, in order; nothing else changes |
| NetCalls.ScannedCall | src/installer/networking.c:184-227 | without a module, the devices shown go in turn, each with its MAC, to the first empty card with their ids, else to the first empty card of their module, else nowhere |
| NetCalls.DevicesComeWithAddress | src/installer/networking.c:188-256 | whatever is probed, a card that has come to a device by the call has it from the directory, and the MAC that sysfs gives for it |
| NetScan.Scanner.ListHardware | src/installer/networking.c:286-301 | the table starts as the detected network hardware, in order, without devices and colours |
| NetScan.Scanner.AdoptDevice | src/installer/networking.c:324-388 | a configured device that is present goes, with its colour, to the first empty slot with its non-empty ids, else to the first with its noted driver, else to a new card if sysfs tells all about it, else nowhere; the buffers then hold what was read |
| NetScan.Scanner.AdoptColour | src/installer/networking.c:314-389 | the devices that the settings count for one colour are attached in turn, as many as atoi makes of the count |
| NetScan.Scanner.AdoptConfigured | src/installer/networking.c:313-390 | ... for the four colours in turn, straight from the settings |
| NetScan.Scanner.ProbeEverything | src/installer/networking.c:393-401 | one call without module, then one for the module of each card that has no device when its turn comes |
| NetScan.Scanner.ScanCards | src/installer/networking.c:273-402 | the table after a scan, of a fresh or an installed system, with the made-up cards showing the device read last, and that a second scan changes nothing |
| NetScan.FreshScanIsClean | src/installer/networking.c:283-301 | whatever the system answers, a fresh scan lists no device twice and colours no card |
| NetScan.ScanLeavesEmptyForAReason | src/installer/networking.c:393-401 | after any scan a card is without a device only if its own module was probed and did not load, or every device then visible is in the table |
| NetScan.AdoptIsSoundIff | src/installer/networking.c:324-388 | attaching a configured device keeps the devices distinct and unhidden exactly when it is neither hidden nor listed |
| NetScan.AdoptAllIsSoundIff | src/installer/networking.c:313-390 | attaching all of them does exactly when each is, at its turn, neither hidden nor listed |
| NetScan.AdoptAllIsUniqueIff | src/installer/networking.c:313-390 | and gives no colour to two cards exactly when each attached device has a colour not yet in use |
| NetScan.ScanIsSoundIff | src/installer/networking.c:283-401 | the same condition decides whether the whole scan, with its made-up cards and all its probes, lists some device twice or a hidden one |
| NetScan.ScanIsUniqueIff | src/installer/networking.c:283-401 | and whether it gives some colour to two cards |
| NetScan.EarlierReadingsDoNotMatter | src/installer/networking.c:366-383 | what the shared buffers held before the scan is of no account: where there is a made-up card, something has been read |
| NetHardware.DetectedIsForHardware | src/installer/networking.c:286-301 | the k-th card has the module, description and ids of the k-th entry of the hardware list that is a network card, and there are no others |
| NetHardware.FreshScanServesIds | src/installer/networking.c:283-401 | after a fresh scan every card is still for its hardware, and a device that was there goes to hardware with its own vendor and model ids as long as some is left |
| NetHardware.AdoptAdopts | src/installer/networking.c:324-388 | field by field, which card a configured device goes to, and what the card shows then |
| NetHardware.AdoptAllInTurn | src/installer/networking.c:313-390 | all of them, each against the table that the earlier ones left |
| NetHardware.ConfiguredAreSpelled | src/installer/networking.c:313-321 | the devices of the settings are those of GREEN, RED, BLUE and ORANGE, as many as each COUNT says, numbered from 1 in the keys |
| NetHardware.AtoiReads | src/installer/networking.c:314-316 | atoi of a number, behind blanks and a sign and in front of anything else, is that number |
| NetHardware.AtoiOfNone | src/installer/networking.c:314-316 | and zero of a text that does not start with one |
| NetHardware.MadeUpShowLastRead | src/installer/networking.c:366-383 | a card made up shows module and ids of the last device shown at the first probe, or else of the last one of the settings that is there |
| NetHardware.ScanProbesInOrder | src/installer/networking.c:393-401 | the probes of a scan: one without module, then the modules of the cards found empty at their turn, in the order of the table, without options |
| NetStart.StartAgreesIff | src/installer/networking.c:313-390 | the settings agree with the cards adopted from them exactly when each colour counts one card or none, and each device named is attached to hardware with the noted driver and address, where a made-up card shows the driver read last |
| NetStart.SetupStartsInStepIff | src/installer/networking.c:303-401 | on that condition, and no other, the dialog opens with cards and settings in step after the probes |
| NetStart.InstallationStartsInStepIff | src/installer/networking.c:283-301 | on a fresh installation it does exactly when the settings name no card |
| NetStart.ScannedIsAddressed | src/installer/networking.c:273-402 | after a scan no card has an address without a device |
| NetStart.RepeatedDeviceIsListedTwice | src/installer/networking.c:303-401 | settings that give one device to two colours, with two equal cards, make a whole scan list it twice, whatever is probed afterwards |
| NetSafety.ClearedSettings | src/installer/networking.c:498-508 | clearing a colour leaves its settings naming no card, and touches no setting of another colour |
| NetSafety.StoredSettings | src/installer/networking.c:509-518 | storing a card leaves the settings of its colour naming exactly that card, and touches no setting of another colour |
| NetColours.CardList.ColourChoices | src/installer/networking.c:536-557 | the unused colours in order, without RED for a dial-up type, and the entry for no colour |
| NetColours.CardList.CardConfig | src/installer/networking.c:523-588 | colours, settings and the changed flag after one answer, for every button and entry |
| NetManual.Manual.AddManual | src/installer/networking.c:665-707 | the table and the result after any answers, until the dialog closes |
| NetManual.Manual.ManualList | src/installer/networking.c:711-737 | the table after any lines picked from the menu, until it closes |
| NetManual.ManualIsARunOfLoads | src/installer/networking.c:662-737 | whatever is typed and picked is a run of the card list that only loads modules, with the same table at its end and nothing else changed |
| NetManual.LoadSucceedsIffItAdds | src/installer/networking.c:155-269 | loading a module by hand succeeds exactly when some device is listed that was not, and changes nothing otherwise |
| NetManual.AnswerAddsIff | src/installer/networking.c:674-706 | at any position of the dialog, an answer adds a device exactly when it names a module, and closes the dialog if and only if it has options |
| NetManual.SuccessHasAddedIffOptions | src/installer/networking.c:662-701 | when SUCCESS is returned, which is to mean that there is an additional interface, the module that closed the dialog has added one if and only if options were typed with it |
| NetManual.DialogAddsIff | src/installer/networking.c:665-707 | the whole dialog adds a device exactly when that module had options or some module before it had none |
| NetManual.TypedText | src/installer/networking.c:684-698 | the typed module is the text before the first blank, the options are the text behind it, and new cards are "Unknown card" |
| NetManual.ClosesIff | src/installer/networking.c:674-706 | the dialog closes on the third button, stays open for an empty text, and else closes when a module with options finds a device or one without finds none |
| NetManual.ClosingIsFirst | src/installer/networking.c:665-707 | the answer at which the dialog ends is the first one that closes it |
| NetManual.ResultOfDialog | src/installer/networking.c:665-707 | the result is that of the first answer that closes: SUCCESS unless it cancels |
| NetManual.LineOfMenu | src/installer/networking.c:711-737 | the first line opens that dialog, every other one loads the module of its line without options; the menu closes when a card was added or on the third button, and then nothing more is probed |
| NetColours.CardList.UdevConfig | src/installer/networking.c:624-659 | one rule per card with an address, and the device settings renamed to match; nothing at all if the rules file cannot be opened |
| NetColours.CardList.DonePressed | src/installer/networking.c:783-835 | the dialog is left exactly when GREEN is a card and RED is a card, dial-up or given up; then the rules are written if anything changed and their file opens |
| NetMenu.KeysAreSpelled | src/installer/networking.c:498-518 | the sixteen settings and RED_1_TYPE, letter by letter |
| NetMenu.MenuIsInOrder | src/installer/networking.c:536-557 | position i of the menu shows the i-th free colour in the order GREEN, RED, BLUE, ORANGE, and the last one no colour |
| NetMenu.PickIsGiven | src/installer/networking.c:569-588 | the card gets exactly the colour shown at the position picked, no other card changes, the settings of that colour hold the card, those of its old colour nobody, and no other setting changes; other buttons change nothing |
| NetMenu.RulesAreForCards | src/installer/networking.c:636-656 | rule i has the MAC of the i-th card with one, and the name lan-1, wan-1, wlan-1 or dmz-1 of its colour or the next unused-n |
| NetMenu.RenamedExactly | src/installer/networking.c:643-647 | exactly the device settings of the colours with a rule change, to these names |
| NetMenu.DoneExactly | src/installer/networking.c:783-835 | when the dialog is left, what becomes of the RED type, when the rules are written, and which |
| NetMenu.DoneSettings | src/installer/networking.c:815-834 | what becomes of every single setting then |
| NetSafety.KeysDiffer | src/installer/networking.c:500-517 | the keys of different colours and fields are different, so that no update touches another setting |
| NetSafety.MenuIsExact | src/installer/networking.c:536-555 | the menu offers a colour exactly when no card has it and it is not RED on a dial-up line |
| NetSafety.AssignKeepsAgreement | src/installer/networking.c:567-588 | recolouring keeps each colour on one card at most and all settings in agreement with the owners |
| NetSafety.ProbeKeepsColours | src/installer/networking.c:155-269 | a probe neither gives nor takes colours |
| NetSafety.ProbeAndAgreement | src/installer/networking.c:184-261 | a probe leaves the settings in agreement exactly when it fills no card that already has a colour |
| NetSafety.ModuleIsSafeIffDressed | src/installer/networking.c:228-261 | loading a module cannot break the agreement, whatever the system answers, exactly when the coloured cards of the module have devices |
| NetSafety.SafeIffDressed | src/installer/networking.c:155-269 | no probe whatever can break the agreement exactly when every card with a colour has a device |
| NetUdev.NamesDiffer | src/installer/networking.c:643-650 | names of different colours and of different counters never coincide |
| NetUdev.NamesInRules | src/installer/networking.c:640-656 | which names occur in the rules: those of colours with an addressed card, and unused-1 to unused-n |
| NetUdev.NamesCollideIffColoursDo | src/installer/networking.c:640-656 | the interface names are pairwise distinct exactly when no two addressed cards share a colour |
| NetUdev.RenamedSettings | src/installer/networking.c:646-650 | udevconfig changes the device setting of the colours that get a rule and no other setting of a colour |
| NetUdev.RenamedAgrees | src/installer/networking.c:640-656 | afterwards the settings name the devices that the rules create |
| NetRuns.RunKeepsOwners | src/installer/networking.c:744-838 | over every run of the dialog no colour is on two cards and no device is listed twice |
| NetRuns.ConfigureIsInStep | src/installer/networking.c:523-588 | configuring a card keeps everything in step, whatever is chosen |
| NetRuns.FinishIsInStep | src/installer/networking.c:783-835 | so does leaving: it yields GREEN, RED if needed, and, when there were changes and the rules file opens, settings that name what the rules create and distinct rules; also on a later opening |
| NetRuns.StepIsInStepIffGentle | src/installer/networking.c:752-836 | only a probe can break the order, and exactly when it gives a device to a coloured card |
| NetRuns.RunIsInStepIffGentle | src/installer/networking.c:744-838 | over any run, with any number of openings, everything is in step all along exactly when no probe gives a device to a coloured card |
| NetRuns.ChangesAreWritten | src/installer/networking.c:570-588 | once a card was assigned, every later exit of any run writes the rules if their file opens |
| NetRuns.ScriptIsSafeIffDressed | src/installer/networking.c:744-838 | a script of the user is in step for all answers of the system exactly when it never loads a module while a coloured card of that module has no device |
| NetRuns.CarelessRunDisagrees | src/installer/networking.c:576-586 | a card without a device gets a colour, all in step; loading its module then leaves the settings wrong |
| UsbHash.HashNum | src/installer/usbnames.c:125-137 | the folding loop yields bit 0 and the three stride parities of the word |
| UsbHash.HashIsTheRemainder | src/installer/usbnames.c:129-137 | division by x^4 + x over GF(2) has exactly one result and the hash is its remainder |
| UsbHash.HashIsLinear | src/installer/usbnames.c:129-137 | the hash of an exclusive or is the exclusive or of the hashes |
| UsbHash.BitsDenote | src/installer/usbnames.c:125-137 | the bits that are hashed are those of the number |
| UsbHash.NibbleFillsBuckets | src/installer/usbnames.c:129-137 | of sixteen keys that differ in the low nibble exactly one falls into each bucket |
| UsbTables.Names.constructor | src/installer/usbnames.c:141-155 | the empty tables represent the empty map |
| UsbTables.Names.Lookup | src/installer/usbnames.c:159-285 | a lookup yields what the represented map holds for the key |
| UsbTables.Names.Insert | src/installer/usbnames.c:289-482 | a duplicate is refused and changes nothing; a new key is added to the map; nodes stay in their buckets with distinct keys |
| UsbTables.IdsArePacked | src/installer/usbnames.c:141-443 | the number hashed for a key holds its ids side by side, in 32 bits |
| UsbParse.ReadIdAndName | src/installer/usbnames.c:646-659 | the common tail of a line: blanks, a number, blanks, a name |
| UsbParse.Parse | src/installer/usbnames.c:621-952 | for any lines, the tables afterwards agree with the old ones extended by a map in which the first definition wins |
| UsbParse.ExtendByOne | src/installer/usbnames.c:660-661 | refusing a duplicate and adding a first definition both keep that agreement |
| UsbParse.FirstDefinitionIs | src/installer/usbnames.c:660-661 | a key has the name of its first definition, or none |
| UsbParse.ContextIsExclusive | src/installer/usbnames.c:625-629 | at every line at most one of vendor, class, usage page and language is remembered, and a subclass only with a class |
| UsbParse.ContextIsRemembered | src/installer/usbnames.c:625-629 | at any line, what is remembered is decided by the last header above it and, below a class, by the last indented line since; by nothing when there is no header |
| UsbParse.IndentedKey | src/installer/usbnames.c:832-866 | what any indented line defines, with the C truncations: nothing without a header above it or below the id 2^32 - 1, else what that header says |
| UsbParse.ProtocolKey | src/installer/usbnames.c:867-884 | any doubly indented line defines a protocol exactly if the last header is a class and an indented line stands between, neither with the id 2^32 - 1 |
| UsbLines.LineReads | src/installer/usbnames.c:640-946 | a line of each of the thirteen kinds, with any id, width and blanks, is read back as an entry of that kind |
| UsbLines.PhyReads | src/installer/usbnames.c:665-685 | PHY is read as PHYSDES |
| UsbLines.AnyNumberReads | src/installer/usbnames.c:640-946 | behind any blanks, with or without 0x, a hexadecimal number of any digits is read as the number it spells |
| UsbLines.LineDefines | src/installer/usbnames.c:643-946 | wherever it stands, a line that is not indented defines the key of its kind: class, HID, usage page, report, bias, PHY, terminal, language or vendor with its id cut to their width, country code in decimal |
| UsbLines.EntryHasForm | src/installer/usbnames.c:632-948 | no other line says anything: up to its end it is a lead, blanks, a number, blanks and a name |
| UsbPrint.DefinitionsOfFile | src/installer/usbnames.c:621-948 | parsing a printed file of vendors with products, classes with subclasses and protocols, usage pages with usages, languages with dialects, and single lines yields exactly their names, in order |
| KvList.KvList.AddKv | src/installer/helper.c:222-230 | the new item in front of the old list, in a new node before the old nodes |
| KvList.KvList.FindKv | src/installer/helper.c:233-242 | the value of the first node with the key, or none |
| KvList.KvList.FindKvDefault | src/installer/helper.c:249-262 | the value cut to the buffer, or the default with a failure |
| KvList.KvList.TestKv | src/installer/helper.c:266-279 | success exactly when the key has the expected value |
| KvList.KvList.UpdateKv | src/installer/helper.c:282-294 | the first node with the key is changed in place, or a node is added |
| KvList.FindAfterUpdate | src/installer/helper.c:282-294 | update_kv is map update as seen by find_kv |
| KvList.UpdateKeepsDistinct | src/installer/helper.c:282-294 | update_kv keeps keys distinct |
| KvList.UpdateIsInPlace | src/installer/helper.c:282-294 | the first item with the key is changed where it stands, and a new one is put in front |
| KvList.ClippedTo255 | src/installer/helper.c:249-262 | find_kv_default copies 255 characters at most |
| KvList.FindInReverse | src/installer/helper.c:222-242 | reversing a list makes the last duplicate the winner |
| KvList.DistinctKeysFind | src/installer/helper.c:222-242 | without duplicates the order does not matter |
| KvSession.ParsePrintedBody | src/installer/helper.c:320-343 | parsing a printed key and value gives both back exactly when the value has a blank or does not begin with a quote |
| KvFile.ReadKvFromFile | src/installer/helper.c:298-350 | the list and the result after reading, for missing files and for errors in the middle as well |
| KvFile.WriteKvToFile | src/installer/helper.c:354-381 | what the file holds afterwards: a line per item, in list order, with quotes around a value that has a blank; nothing if it cannot be locked; what it held before if it cannot be opened |
| KvSession.ReadSum | src/installer/helper.c:313-344 | reading whole lines and then a rest is reading both together |
| KvSession.ReadOnto | src/installer/helper.c:313-344 | what a file contributes does not depend on the list it is read onto |
| KvSession.ReadIsWellFormed | src/installer/helper.c:313-344 | keys read are not empty and hold no '=' or newline, values no newline |
| KvSession.ItemSurvivesIffPrintable | src/installer/helper.c:313-373 | printing and parsing one item is the identity exactly for printable items: the key is not empty and has no '=' or newline, the value no newline, a value without blank no leading quote, and the line fits a buffer |
| KvSession.ListSurvivesIffPrintable | src/installer/helper.c:298-381 | writing and reading a list reverses it exactly when all items are printable |
| KvSession.TwiceIsIdentity | src/installer/helper.c:298-381 | saving and reloading twice gives the list back |
| KvSession.SessionOverridesFile | src/installer/helper.c:282-381 | load, change, save, reload: each key has its last change or else its old value, and keys stay distinct |
| KvSession.ReloadTurnsFirstIntoLast | src/installer/helper.c:298-381 | a reload makes the last duplicate win |
| KvSession.DuplicatesFlip | src/installer/helper.c:298-381 | a list with two values for one key yields the other one after a save and a reload |
| KvText.PrintedFile | src/installer/helper.c:366-374 | the file, character by character |
| KvText.LineIsRead | src/installer/helper.c:313-344 | a line of up to 254 characters counts by itself |
| KvText.LastLineIsRead | src/installer/helper.c:313-344 | so does the last one, without its end |
| KvText.LongLineIsCut | src/installer/helper.c:313-344 | a longer one counts in pieces of 255 |
| KvText.LineWithoutEquals | src/installer/helper.c:320-326 | an empty line is skipped, one without = ends the reading |
| KvText.PlainValue | src/installer/helper.c:327-344 | the value is what follows the first =; a line without a key is skipped |
| KvText.QuotedValue | src/installer/helper.c:331-344 | a value in quotes ends at the last quote |
| KvText.OpenQuote | src/installer/helper.c:331-340 | a quote that is not closed ends the reading |
| KvLine.SkipBlanks | src/installer/helper.c:425-426 | skipping blanks changes no token |
| KvLine.ReadToken | src/installer/helper.c:431-449 | the next token cut at its first '=', or with the value "1" |
| KvLine.ReadKvFromLine | src/installer/helper.c:414-453 | for lines under 255 characters, the tokens of the first line are added in front, the last one first |
| KvLine.LastSettingWins | src/installer/helper.c:414-453 | after a line has been read onto any list, find_kv yields the last setting of a key on the line, or else the value it had before |
| KvLine.WordsAreClean | src/installer/helper.c:424-433 | tokens are not empty and hold no blank |
| KvLine.WordsLoseOnlyBlanks | src/installer/helper.c:424-452 | the tokens together are the line without its blanks |
| KvLine.LineSurvivesIffPlain | src/installer/helper.c:414-453 | printing items as one line and parsing it gives them back exactly when no key has a blank, '=' or newline and no value a blank or newline |
| KvText.WordsAreSplit | src/installer/helper.c:424-433 | blanks are skipped and a word reaches to the next one |
| KvText.WordIsCut | src/installer/helper.c:431-449 | a word is cut at its first =, and has the value 1 without one |
| KvText.OnlyFirstLine | src/installer/helper.c:420-421 | what follows the first line end is ignored |
| ValidIp.OrExceedsIffSomeDoes | src/installer/helper.c:721 | the bitwise or of four numbers is at most 255 exactly when each is |
| ValidIp.AcceptsExactlyQuads | src/installer/helper.c:712-724 | VALID_IP accepts a text exactly when it is four dot-separated groups of one to three digits, each at most 255 |
| ValidIp.PrintedQuadIsValid | src/installer/helper.c:712-724 | every printed address is accepted and scans back to its bytes |
| MoWords.SwapTwice | src/installer/language.c:315-319 | SWAP is its own inverse |
| MoWords.SwapJoin | src/installer/language.c:315-319 | SWAP of a word read in one byte order is the word read in the other |
| MoLocale.Locale.ReadTable | src/installer/language.c:390-408 | the strings of one table, or those in front of the first that the file cuts short or that overruns the buffer |
| MoLocale.Locale.ReadTables | src/installer/language.c:365-430 | both tables, partly filled after an error, and the flag, for any file with a header |
| MoLocale.Locale.IpcopLocale | src/installer/language.c:326-443 | status, flags, count and tables after a load, for any file and any earlier state, failures and headers cut short included; and exactly after which loads lookups are safe |
| MoReading.LoadIsSafeIff | src/installer/language.c:326-475 | a load leaves an entry in both tables for every string counted exactly when no catalogue was in use, there is no file, it lacks the magic number and its count word is not above the old tables, or it has it and is empty or readable |
| MoReading.TextIsFetchedIff | src/installer/language.c:396-408 | a string is read exactly if its length and one is at most 4096 and in the file, and is what stands before the first zero byte |
| MoReading.TextIsShortIff | src/installer/language.c:396-408 | the file cuts a string short if it has fewer bytes than wanted, unless they overrun the buffer first |
| MoReading.FetchedUpTo | src/installer/language.c:390-430 | of a table the strings in front of the first that cannot be read are there, and the result tells why that one cannot |
| MoReading.LoadExactly | src/installer/language.c:335-443 | for every file, why a load ended, what becomes of the flag and the count, and from which offsets the tables are |
| MoReading.BadMagicBreaksLookup | src/installer/language.c:344-361 | twenty bytes without the magic number make the lookup run beyond a catalogue of one entry |
| MoLocale.Locale.IpcopGettext | src/installer/language.c:450-475 | the translation of the first entry with this text, or the text itself |
| MoImage.ImageLoads | src/installer/language.c:326-443 | an image of a catalogue in either byte order loads into the catalogue itself |
| MoImage.BothOrdersLoadAlike | src/installer/language.c:326-443 | the native and the swapped image load into identical tables |
| MoReading.LoadsIffReadable | src/installer/language.c:347-430 | any file with a header loads exactly when it has the magic number, some strings, and two tables readable in the byte order used, which is the other one if the flag is set |
| MoImage.LoadsIffFlagMatches | src/installer/language.c:351-355 | an image whose swapped table offset lies beyond its end loads exactly when the flag is clear or its order is the other one |
| MoImage.LoadAndTranslate | src/installer/language.c:326-475 | on a fresh start, loading and looking up a text yields its first translation or the text |
| MoWriter.CatalogueHasImage | src/installer/language.c:296-306 | every catalogue that fits 32-bit offsets has an image in either byte order |
| MoWriter.WriteThenLoad | src/installer/language.c:347-430 | every catalogue up to 448 MiB has one that loads on any machine exactly when the flag is clear or the orders differ |
| Smoothing.AverageIsBetween | src/ibod/ibod.c:264-267 | the smoothed rate lies between the old rate and the sample |
| Smoothing.AverageIsFixedIff | src/ibod/ibod.c:264-267 | it stays exactly when the sample exceeds the rate by less than the filter, and rises exactly above that |
| Smoothing.QuietRateFalls | src/ibod/ibod.c:264-267 | samples within the limit bring the rate down to it, by one at least per tick, and keep it there |
| Smoothing.BusyRateRises | src/ibod/ibod.c:264-267 | samples of limit + filter lift the rate above the limit within limit + 1 - rate ticks |
| Smoothing.AlmostBusyRateStays | src/ibod/ibod.c:264-267 | smaller samples never do, so that the bound is sharp |
| Smoothing.ExcessDecays | src/ibod/ibod.c:264-267 | under quiet samples the excess shrinks by the factor (filter - 1) / filter per tick |
| Smoothing.AverageIsQuotient | src/ibod/ibod.c:264-267 | the next rate is (f - 1) parts of the old one and the sample, divided by f and rounded down |
| Ibod.Daemon.TakeUpOrDown | src/ibod/ibod.c:285-311 | what is done to the link, with the channel count as the bring-up left it |
| Ibod.Daemon.Tick | src/ibod/ibod.c:190-312 | the whole state and the events of one tick |
| Ibod.AtMostOneEvent | src/ibod/ibod.c:285-309 | no tick touches the link twice |
| Ibod.LinkIsTouchedIff | src/ibod/ibod.c:249-311 | exactly when a tick asks for the link to be added or removed, by the channels it finds: never when disabled, on the first sample, when the channel count fell, or without channels |
| Ibod.RunStaysUp | src/ibod/ibod.c:249-311 | over every run a bring-down comes more than stayup_time seconds after the latest bring-up |
| Ibod.FailureIsLast | src/ibod/ibod.c:289-307 | a request that fails is the last of a run |
| Ibod.UpThenDown | src/ibod/ibod.c:293-303 | the stay-up time between two positions of the trace |
| Ibod.SmoothedIsAverage | src/ibod/ibod.c:264-267 | without overflow the unsigned filter is the filter on natural numbers |
| Ibod.UnfilteredIsSample | src/ibod/ibod.c:257-262 | with a filter below one the rate is the sample |
| Ibod.RateIsBytesPerSecond | src/ibod/ibod.c:257-268 | without wrap-around the sample is 1000 times the bytes over the milliseconds, rounded down |
| Ibod.TickIsRemembered | src/ibod/ibod.c:207-274 | a tick that does not end the program leaves its clock and byte counters for the next, also one that only takes notes |
| Ibod.StateAfterTick | src/ibod/ibod.c:190-311 | every field after a tick: clock, counters, both rates, channels, time of the last bring-up, and when the program ends |
| Ibod.BusyLineAsks | src/ibod/ibod.c:207-294 | a single channel whose byte counter grows by limit + filter bytes per second in one direction asks for its second one within limit + 1 - rate ticks |
| Ibod.BusyLineIsBroughtUp | src/ibod/ibod.c:256-339 | and if the kernel grants whatever is asked, some tick adds the second channel on the first request of the run, counts two channels and starts the stay-up timer |
| Ibod.QuietLineAsks | src/ibod/ibod.c:207-309 | a second channel with counters that grow by at most the limit asks to be removed once both rates have fallen to the limit, within as many ticks as they exceed it and one more |
| Ibod.QuietLineIsTakenDown | src/ibod/ibod.c:256-366 | and if the kernel grants whatever is asked, it is removed |
| Ibod.FreshDaemonBringsUp | src/ibod/ibod.c:190-339 | the same from the start of the program, whose first tick only takes notes |
| Ibod.FreshDaemonTakesDown | src/ibod/ibod.c:190-366 | a program started on two quiet channels asks to remove one with its second tick |
| TrimLine.Shift | src/misc-progs/ipcopbkcfg.c:97-122 | the whole buffer after the shifting loop, for every line |
| TrimLine.CutEnd | src/misc-progs/ipcopbkcfg.c:124-134 | the loop at the end removes trailing blanks and runs off the front exactly for a string of blanks |
| TrimLine.TrimTakesBlanks | src/misc-progs/ipcopbkcfg.c:96-134 | trimmed means without the blanks and tabs at both ends, and with everything between |
| TrimLine.BodyIsBeforeEnd | src/misc-progs/ipcopbkcfg.c:96-122 | the text of a line is what stands before its first CR or LF |
| TrimLine.TrimmedIffNoRest | src/misc-progs/ipcopbkcfg.c:96-134 | when the two loops together trim the text before the first line end |
| TrimLine.TrimInPlace | src/misc-progs/ipcopbkcfg.c:96-134 | a line comes out trimmed exactly when it has its end, or what the shift leaves behind is blank; only blank lines run off the front |
| TrimLine.OpenLineIsNotTrimmed | src/misc-progs/ipcopbkcfg.c:96-134 | a last line of a blank and an a without line end comes out as aa |
| Strlcat.Strlcat | src/misc-progs/setuid.c:117-138 | the whole buffer, and min(strlen(dst), len) + strlen(src) as result, for any contents and any len |
| Strlcat.StringAfter | src/misc-progs/setuid.c:117-138 | a string that ends within len is followed by the longest prefix of src that fits, ends within len again, and nothing beyond is written |
| Strlcat.ReturnTellsTruncation | src/misc-progs/setuid.c:117-138 | the result is at least len exactly when something was cut off |
| Strlcat.AppendsCompose | src/misc-progs/setuid.c:117-138 | appending two strings in turn is appending their concatenation |
| Partition.MakePartitions | src/installer/partition.c:105-172 | the three sizes in closed form, with the C quotient |
| Partition.AutomaticLayout | src/installer/partition.c:132-172 | from 480 MiB on: root and log use the disk, swap is 32 to 256, root without swap 256 to 512, log at least 191 |
| Partition.AutomaticSizes | src/installer/partition.c:132-172 | the sizes in numbers: swap and root grow by a quarter of the surplus and reach 256 and 512 MiB exactly from 1377 and 1505 MiB on |
| Partition.ChosenSizes | src/installer/partition.c:116-172 | when a swap size is kept, what it changes, and the sizes on flash |
| Partition.LayoutIsMonotone | src/installer/partition.c:132-164 | swap and root never shrink as the disk grows |
| Partition.LogIsNotMonotone | src/installer/partition.c:171-172 | the log may shrink by one, and over four MiB it always grows |
| Partition.LogSurvivesIffSwapAtMost226 | src/installer/partition.c:135-172 | a swap size leaves room for the log on every disk that accepts it exactly up to 226 MiB |
| Partition.ForcedSwapOvercommits | src/installer/partition.c:135-172 | 256 MiB of swap on 514 MiB leave a log of -7 |
| DhcpRange.NetworkIsBlock | src/installer/helper_newt.c:276-278 | with leading ones as mask, network and broadcast address bound an aligned block |
| DhcpRange.NetworkIsRemainder | src/installer/helper_newt.c:276-278 | the network address is the address less its remainder by the size of the block |
| DhcpRange.UsableIsInside | src/installer/helper_newt.c:276-278 | another host of the network is one strictly between these bounds |
| DhcpRange.GreenRange | src/installer/net_dhcp.c:109-146 | for a proper host the default range is that above it, or below it if there is none; it is non-empty and holds only usable hosts, except for the lower host of a /30 and 255.255.255.254, exactly |

## Left out

- Dialogs, gettext of their texts, logging, locks, signals, freeing of memory and failing allocation; a menu answer is any answer.
- Reading sysfs, directories, the ISDN devices and files themselves: their contents are inputs. A scandir that fails with -1 is not modelled.
- NetScan.Scanner.AdoptConfigured: a device setting missing below its count would crash the program; here it reads as empty. A count too large for an int is not modelled.
- The RED type dialog (src/installer/networking.c:406-488), also between two openings of the card list: it writes RED settings that the card table does not know of.
- Blinking a card (src/installer/networking.c:590-609), which changes nothing, and menus of more than nine cards, for which the array of the source is too small.
- UsbParse.Parse: lines are what usb_fgets delivers; cutting longer lines into pieces of 511 characters is not modelled.
- UsbTables.Names: an allocation that fails counts as a duplicate in the source; here it always succeeds.
- KvFile.ReadKvFromFile: files with NUL characters, which would end a buffer early, are not modelled.
- KvLine.ReadKvFromLine: a line of 255 characters or more leaves the local copy of the source without an end.
- MoLocale.Locale.IpcopLocale: a header cut short is taken to leave the bytes that are there in the count, as the C library does; offsets from 2^31 on, which go through a signed long, are read as the offsets they denote. What follows a string that overruns the buffer is undefined.
- Ibod.Daemon.Tick: the configuration is fixed; rereading it on SIGHUP and parsing ibod.cf are not modelled.
- Strlcat.Strlcat: source and destination do not overlap.
- The sparc rounding of the root partition (src/installer/partition.c:167-170) and the partitioning commands.
- The masks of hashnum are kept as bit positions, words as sequences of bits, and `&`, `|`, `~` and shifts on numbers as arithmetic.
- The setuid helper programs, the build system, the web interface and its JavaScript menu: option parsing and command strings.
