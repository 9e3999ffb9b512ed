# octo4a in Dafny

octo4a runs OctoPrint on an Android phone. It ships a Linux userland (the
"bootstrap") that runs under proot. It exposes the phone's USB serial
printer to OctoPrint through a pseudo-terminal, and it serves the phone's
camera as an MJPEG stream. This project models the app's deterministic
logic and proves properties of it. The I/O around that logic (sockets,
processes, the Android framework, JNI) becomes parameters of the
functions, or event traces that the functions return.

One module per source file or component:

| module | models |
|---|---|
| `Wrappers`, `Text`, `Lists` | nullable values and raised errors; the library string, byte-string and list operations the code calls |
| `Platform` | `isBitSet` and the architecture decision of `Extensions.kt` |
| `OpenPty`, `IoctlHook`, `VspPty`, `SerialData` | the native serial bridge: `openpty`, the `ioctl` interposer with its FIFO events, the baud table, one relay iteration and the start-once guard, and the packet byte |
| `PrinterProber`, `VirtualSerial` | the USB id table and the Kotlin driver: device classification, selection, and the reopen and write decisions per chunk |
| `SemVer` | parsing, printing and the precedence of Semantic Versioning 2.0.0 (section 11) |
| `Installation`, `BootstrapRepository`, `BootstrapUtils` | release listing and recommendation, asset choice, the setup commands, SYMLINKS.txt, folder deletion and the shell command line |
| `Network` | the address list: filtering, interface classification and the three stable sorts |
| `CommFix` | the serial-port candidate list of the OctoPrint plugin script |
| `DocumentProvider` | document ids, conflict-free names, child test, MIME types and the breadth-first search |
| `Extensions`, `OctoPrintHandler`, `ProgressStream` | extension settings and status transitions; server status, extras, config values and the process id; the byte-counting stream |
| `DpkgReplacer` | the same-length rewrite of "com.termux" in the tar members and `ar` members of a `.deb` |
| `Arith` | products of naturals as repeated addition, for the buffer offsets of the image models |
| `Camera`, `Nv21`, `Rotate`, `YCbCr` | camera labels and size choice; NV21 packing; NV21 rotation; the YCbCr-to-RGB kernel of ITU-T T.871 clause 7 |
| `Multipart`, `Streaming`, `MjpegServer`, `MjpegResponse`, `FlutterMjpeg` | the RFC 2046 multipart framing with a reader as its partner, and the three MJPEG servers |

Each operation is paired with a partner and a lemma that connects them:
- parsers with their printers (`SemVer.ParseToString`, `DocumentProvider.DocIdRoundTrip`, `Camera.ReadableStringRoundTrip`);
- the MJPEG writers with a multipart reader (`MjpegServer.StreamReadsBack`);
- loops with reference definitions (`Nv21.Yuv420ToNv21`, `Rotate.Rotate180Twice`);
- state changes with the invariants they keep (`Extensions.StepsKeepConsistent`).

A few observations are left as they are written, because they are behaviours rather than defects:
- `isChildDocument` accepts the sibling `/a/bc` under `/a/b` (`DocumentProvider.IsChildDocumentIsPrefix`).
- The two `describeString` variants disagree for a lens that is neither front nor back (`Camera.DescriptionsAgree`).
- The app's `/mjpeg` coroutine unregisters a listener it never registered when its opening write fails (`MjpegServer.ListenerCalls`).
- The Flutter server sends an empty frame as a part of its own, where the app's servers skip it (`FlutterMjpeg.EmptyFrameSent`).
- `MjpegResponse` writes its headers through a `PrintWriter`, which swallows I/O errors; only the raw frame write can end the loop.

## Model

| member | source | states |
|---|---|---|
| Platform.BitIndexWraps | app/app/src/main/java/com/octo4a/utils/Extensions.kt:19-21 | `isBitSet` shifts by the bit index modulo 32, as the JVM does, so bit 32 + k tests the same bit as bit k |
| Platform.BitZeroIsOddness | app/app/src/main/java/com/octo4a/utils/Extensions.kt:19-21 | bit 0 is set exactly when the value is odd, for negative values too |
| Platform.GetArchString | app/app/src/main/java/com/octo4a/utils/Extensions.kt:103-122 | a missing `os.arch` is an error (the `!!`); `x86_64` and `i686` are kept as they are; any other value becomes `aarch64` exactly when the device is 64-bit, otherwise `arm` |
| OpenPty.OpenPty | app/app/src/main/jni/openpty.c:8-32 | returns 0 exactly when every step succeeds, and -1 otherwise; on success it hands out the master and slave descriptors, and the slave's name only when one was asked for; a failed `/dev/ptmx` open makes no further call; any later failure closes the master last; terminal attributes and window size are applied only on success and only when given |
| OpenPty.NoLeak | app/app/src/main/jni/openpty.c:13-31 | on failure every descriptor that was opened has been closed; on success nothing is closed and exactly the master and the slave are open |
| IoctlHook.WriteEventToPipe | app/app/src/main/jni/ioctl-hook.c:24-30 | opens the FIFO, writes the JSON prefix, the first `len` bytes of the event and the suffix, then closes: the payload is one `{"eventType": "<tag>"}` line |
| IoctlHook.EnvelopeLengths | app/app/src/main/jni/ioctl-hook.c:20-52 | the lengths passed to `write` (`sizeof - 1`, 6, 10) are exactly the lengths of the texts, so no byte is cut or over-read |
| IoctlHook.Intercepted | app/app/src/main/jni/ioctl-hook.c:44-54 | `TIOCMBIS` is reported as `rtsDts` and the two custom-baud requests as `customBaud`; nothing else is intercepted |
| IoctlHook.Ioctl | app/app/src/main/jni/ioctl-hook.c:32-57 | the real `ioctl` is looked up only while it has not been found; an intercepted request writes its event and returns 0 without reaching the real call; any other request writes nothing and is forwarded with the same descriptor, request and argument (a missing real function is a fault) |
| IoctlHook.LookupOnceFound | app/app/src/main/jni/ioctl-hook.c:34-39 | once the real function is cached, later calls never look it up again |
| IoctlHook.SingleLookup | app/app/src/main/jni/ioctl-hook.c:34-39 | if the first lookup succeeds, a whole run of calls does exactly one lookup |
| SerialData.SignExtend | app/app/src/main/java/com/octo4a/serial/SerialData.kt:10 | `Byte.toInt()` sign-extends: the result lies in -128..127 and has the byte's bit pattern |
| SerialData.Make | app/app/src/main/java/com/octo4a/serial/SerialData.kt:5-10 | an empty chunk is an error (`data[0]` throws); otherwise the fields are kept and the chunk is a start packet exactly when bit `TIOCPKT_DATA` (bit 0) of the status byte is set |
| SerialData.SerialBytes | app/app/src/main/java/com/octo4a/serial/SerialData.kt:11-12 | the serial payload is the chunk without its status byte, one byte shorter |
| SerialData.StartPacketByStatus | app/app/src/main/java/com/octo4a/serial/SerialData.kt:7-10 | a status byte of 0 (`TIOCPKT_DATA`) is never a start packet; any odd status byte is |
| VspPty.StandardCodes | app/app/src/main/jni/vsp-pty.cpp:30-98 | the speed codes the table names are exactly 0..15 and 0x1001..0x100f (the Linux `termbits.h` values) |
| VspPty.GetBaudrate | app/app/src/main/jni/vsp-pty.cpp:30-98 | the sentinel 250000 is returned exactly for the codes the switch does not list, so a real rate is never mistaken for an unknown code |
| VspPty.GetBaudrateTable | app/app/src/main/jni/vsp-pty.cpp:30-95 | every listed speed code maps to its documented baud rate, from B0 to 0 up to B4000000 to 4000000 |
| VspPty.GetBaudrateJni | app/app/src/main/jni/vsp-pty.cpp:255-258 | the Java `int` is taken as an unsigned `speed_t`: a negative value is unknown and gives 250000; any other value gives the table rate |
| VspPty.StartupAsWritten | app/app/src/main/jni/vsp-pty.cpp:153-171 | the start-up as written symlinks the serial pipe to whatever `openpty` left in the name buffer, whether or not it succeeded |
| VspPty.StartupAsWrittenPublishesGarbage | app/app/src/main/jni/vsp-pty.cpp:160-164 | when `/dev/ptmx` cannot be opened, the as-written start-up still publishes a link with an uninitialised target |
| VspPty.Startup | app/app/src/main/jni/vsp-pty.cpp:160-171 | with `openpty`'s result checked, the start-up succeeds exactly when `openpty` does, and then links the serial pipe to the slave's real name; it never publishes an uninitialised name |
| VspPty.ToJint | app/app/src/main/jni/vsp-pty.cpp:141 | the `static_cast<jint>` of a `speed_t` keeps the 32-bit pattern |
| VspPty.RelayIteration | app/app/src/main/jni/vsp-pty.cpp:187-239 | a failed read delivers nothing; a successful read delivers the whole chunk, status byte included, at most 511 bytes, with the output speed read after the read |
| VspPty.PacketRead | app/app/src/main/jni/vsp-pty.cpp:171-187 | in packet mode a data read returns status byte 0 and then as much pending data as fits; nothing is lost or reordered |
| VspPty.RelayAll | app/app/src/main/jni/vsp-pty.cpp:172-241 | relaying what the host wrote, read by read, gives Kotlin chunks that are never start packets and whose payloads, joined in order, are exactly the bytes written |
| VspPty.ConcatAppend | app/app/src/main/java/com/octo4a/serial/SerialData.kt:11-12 | the forwarded bytes of one more chunk are that chunk without its status byte, appended at the end |
| VspPty.RunPtyThread | app/app/src/main/jni/vsp-pty.cpp:276-281 | a worker is created only while the handle is 0; once one exists, later calls change nothing; a failed creation leaves the handle at 0 |
| VspPty.AtMostOneWorker | app/app/src/main/jni/vsp-pty.cpp:276-281 | however often `runPtyThread` is called, at most one worker is ever started |
| PrinterProber.AddProducts | app/app/src/main/java/com/octo4a/serial/PrinterProber.kt:71-94 | adding a list of products maps each of them to the driver and leaves every other entry as it was |
| PrinterProber.Probe | app/app/src/main/java/com/octo4a/serial/PrinterProber.kt:71-94 | the custom prober finds a driver exactly for the identifiers in its table |
| PrinterProber.TablesDisjoint | app/app/src/main/java/com/octo4a/serial/PrinterProber.kt:10-69 | no vendor/product pair appears in two driver lists, so the order in which they are added does not matter |
| PrinterProber.ProbeMatchesLists | app/app/src/main/java/com/octo4a/serial/PrinterProber.kt:71-94 | probing an identifier gives the driver of the one list that holds it, and nothing for an unlisted one |
| PrinterProber.ListedFamilies | app/app/src/main/java/com/octo4a/serial/PrinterProber.kt:14-69 | every listed Arduino (vendor 9025) is CDC, every listed FTDI-vendor device (1027) is FTDI, every listed Silicon Labs device (4292) is CP21xx |
| PrinterProber.VendorFamilies | app/app/src/main/java/com/octo4a/serial/PrinterProber.kt:71-94 | the same holds for what the prober returns |
| VirtualSerial.ValueOf | app/app/src/main/java/com/octo4a/serial/VirtualSerialDriver.kt:24-31 | Kotlin's enum `valueOf` returns the class with exactly that name, and fails for a name no class has |
| VirtualSerial.ValueOfName | app/app/src/main/java/com/octo4a/serial/VirtualSerialDriver.kt:24-31 | `valueOf(name)` gives back every class |
| VirtualSerial.ClassOf | app/app/src/main/java/com/octo4a/serial/VirtualSerialDriver.kt:122-129 | a probed driver maps to its class, and no driver maps to `UNKNOWN` |
| VirtualSerial.CreateDriver | app/app/src/main/java/com/octo4a/serial/VirtualSerialDriver.kt:35-44 | `createDriver` returns null exactly for `UNKNOWN`, and otherwise a driver of the device's own class |
| VirtualSerial.Id | app/app/src/main/java/com/octo4a/serial/VirtualSerialDriver.kt:46-48 | the identifier is the vendor id's text followed by the product id's text: it starts with the first and what follows it is exactly the second |
| VirtualSerial.IdNotInjective | app/app/src/main/java/com/octo4a/serial/VirtualSerialDriver.kt:46-48 | two different devices can share an identifier (vendor 1, product 23 and vendor 12, product 3 both give "123") |
| VirtualSerial.NewDriver | app/app/src/main/java/com/octo4a/serial/VirtualSerialDriver.kt:57-85 | a new driver uses the custom prober, has no device selected, no port open and baud rate -1 |
| VirtualSerial.MarkSelected | app/app/src/main/java/com/octo4a/serial/VirtualSerialDriver.kt:104-106 | a device is marked selected exactly when its vendor and product ids are the selected ones; every other field of every device is unchanged |
| VirtualSerial.TryToSelect | app/app/src/main/java/com/octo4a/serial/VirtualSerialDriver.kt:88-117 | an `UNKNOWN` device only shows a toast; a device without USB permission is remembered, permission is requested and the requesting-permission toast is shown; otherwise its driver is selected, its class, product id and vendor id are saved, the matching devices are marked and the printer is reported attached |
| VirtualSerial.Classify | app/app/src/main/java/com/octo4a/serial/VirtualSerialDriver.kt:120-139 | a device keeps its name and ids and is not selected; it is auto-detected exactly when the prober knows it; a device matching the saved ids with a non-blank saved driver takes that class (and `valueOf` fails on a bad name); otherwise the probed class |
| VirtualSerial.ClassifyAll | app/app/src/main/java/com/octo4a/serial/VirtualSerialDriver.kt:120-140 | the list holds one classified entry per USB device, in order, and fails exactly when one classification fails |
| VirtualSerial.SelectSaved | app/app/src/main/java/com/octo4a/serial/VirtualSerialDriver.kt:142-147 | the pass over the list changes only the selection and the marks; whenever a device matches the saved ids and has a known class, one such device ends up selected |
| VirtualSerial.UpdateDevicesList | app/app/src/main/java/com/octo4a/serial/VirtualSerialDriver.kt:119-157 | the new list is the classified USB devices, in order, and the update fails exactly when a classification fails; the port, the baud rate and the prober are kept and only selection effects occur |
| VirtualSerial.UpdateSelectsSaved | app/app/src/main/java/com/octo4a/serial/VirtualSerialDriver.kt:141-157 | any newly selected device has permission; a device matching the saved preference wins over an auto-detected one |
| VirtualSerial.WriteStage | app/app/src/main/java/com/octo4a/serial/VirtualSerialDriver.kt:194-200 | a chunk that is only a status byte writes nothing; otherwise its payload is written once, and a failed write closes the port |
| VirtualSerial.Refresh | app/app/src/main/java/com/octo4a/serial/VirtualSerialDriver.kt:164-168 | with a device already selected nothing happens; otherwise the device list is rebuilt and only selection effects occur |
| VirtualSerial.Reopen | app/app/src/main/java/com/octo4a/serial/VirtualSerialDriver.kt:170-191 | the port of the selected device is (re)opened and stays open exactly when the open succeeds; when configuring completes, the line is at the chunk's baud rate, DTR and RTS are raised for a new connection and the reader is started; a failed open or a rejected `setParameters` keeps the old baud rate and does nothing but close and open; rejected modem lines come after the new baud rate is set, and no reader is started |
| VirtualSerial.ReopenAndWrite | app/app/src/main/java/com/octo4a/serial/VirtualSerialDriver.kt:164-204 | when reopening completes and the write succeeds, the port is open at the chunk's baud rate with the same device selected, with DTR and RTS raised for a new connection; an exception from opening or configuring is swallowed before any write or reader, the port left open exactly when the open itself succeeded |
| VirtualSerial.ReopenAndWriteEffects | app/app/src/main/java/com/octo4a/serial/VirtualSerialDriver.kt:164-200 | the effects are the earlier selection effects, the reopening, and the payload write; parameters are always 8N1 at the requested rate; DTR is raised only for a new connection; the baud rate changes only when the port was opened and its parameters accepted |
| VirtualSerial.Reconnect | app/app/src/main/java/com/octo4a/serial/VirtualSerialDriver.kt:164-200 | the reconnection branch: with no device selected the list is refreshed first, and nothing more is done if still none is |
| VirtualSerial.OnDataReceived | app/app/src/main/java/com/octo4a/serial/VirtualSerialDriver.kt:159-205 | a null chunk does nothing; a start packet or a new baud rate on a selected device means a new connection, with DTR and RTS raised when reopening completes; the line parameters always use `getBaudrate` of the chunk's rate with 8N1; only the payload after the status byte is written; a steady, open link writes without reopening |
| VirtualSerial.SteadyLinkNoReopen | app/app/src/main/java/com/octo4a/serial/VirtualSerialDriver.kt:163-184 | once a chunk has opened the port at its baud rate, a following chunk at the same rate that is not a start packet is written without reopening or reconfiguring |
| VirtualSerial.RejectedParametersLeavePortOpen | app/app/src/main/java/com/octo4a/serial/VirtualSerialDriver.kt:174-204 | when the port opens for a new connection but `setParameters` throws, the port stays open, the baud rate is not recorded, no reader is started and nothing is written |
| SemVer.MakeWith | app/app/src/main/java/com/octo4a/utils/SemVer.kt:14-47 | construction succeeds exactly for a valid version (non-negative numbers, identifiers of the character class) and then keeps every field; a negative major is rejected with the major's message first |
| SemVer.InitialDevelopmentByText | app/app/src/main/java/com/octo4a/utils/SemVer.kt:53-69 | a version is in initial development exactly when its text starts with "0." |
| SemVer.NumericPrefixEnd | app/app/src/main/java/com/octo4a/utils/SemVer.kt:29 | the numeric groups and dots can only come from the longest leading run of digits and dots, because every identifier part must begin with `-` or `+` |
| SemVer.SearchCorrect | app/app/src/main/java/com/octo4a/utils/SemVer.kt:29 | the backtracking search over cuts of the numeric prefix, tried in the regex's priority order, returns only complete matches and misses none |
| SemVer.MatchNumeric | app/app/src/main/java/com/octo4a/utils/SemVer.kt:29-30 | the numeric prefix is matched by three optional groups without leading zeros and two optional dots exactly when some such cut exists |
| SemVer.SplitTail | app/app/src/main/java/com/octo4a/utils/SemVer.kt:29 | whatever follows the numeric prefix is split into a pre-release after `-` and build metadata after `+`, and gives back the same text when rendered |
| SemVer.SplitTailRender | app/app/src/main/java/com/octo4a/utils/SemVer.kt:29-63 | the pre-release and metadata of a valid version are read back from their rendering |
| SemVer.DecimalToInt | app/app/src/main/java/com/octo4a/utils/SemVer.kt:32-34 | `toInt` succeeds exactly for values up to 2147483647 and then gives the decimal value; larger values throw |
| SemVer.GroupValue | app/app/src/main/java/com/octo4a/utils/SemVer.kt:32-34 | an empty group is 0, any other group is its `toInt` |
| SemVer.ParseWith | app/app/src/main/java/com/octo4a/utils/SemVer.kt:27-38 | a successful parse gives a valid version whose numeric prefix matched the pattern and whose text after it is the rendered pre-release and metadata; a string whose numeric prefix does not match is rejected |
| SemVer.MatchNumericText | app/app/src/main/java/com/octo4a/utils/SemVer.kt:29-54 | the numbers of a version written as `major.minor.patch` are matched with the cut at the two dots |
| SemVer.ParseToString | app/app/src/main/java/com/octo4a/utils/SemVer.kt:27-63 | parsing the text of any valid version gives that version back |
| SemVer.EmptyParsesAsZero | app/app/src/main/java/com/octo4a/utils/SemVer.kt:29-37 | the empty string parses as 0.0.0 with no pre-release or metadata |
| SemVer.MissingPatchDefaults | app/app/src/main/java/com/octo4a/utils/SemVer.kt:29-37 | "1.2" parses as 1.2.0: a missing group defaults to 0 |
| SemVer.UnderscoreAccepted | app/app/src/main/java/com/octo4a/utils/SemVer.kt:29-45 | the class `A-z` also admits `[\]^_` and the backquote: "1.0.0-a_b" is accepted as written and rejected with letters only |
| SemVer.IntendedIdentifiers | app/app/src/main/java/com/octo4a/utils/SemVer.kt:29-45 | with the intended class, every character of a parsed pre-release or metadata is a dot, a hyphen, a digit or an ASCII letter |
| SemVer.CompareIdentifier | app/app/src/main/java/com/octo4a/utils/SemVer.kt:95-121 | identifier order: a numeric identifier sorts before a non-numeric one; two non-numeric ones compare as strings; two numeric ones compare by value, and `toInt` throws if one of two different numeric identifiers exceeds the `Int` range |
| SemVer.CompareTo | app/app/src/main/java/com/octo4a/utils/SemVer.kt:78-133 | major, minor and patch decide first; with equal numbers a version without pre-release ranks above one with a pre-release, and two without are equal; equality implies equal numbers |
| SemVer.CompareIdentifierAntisymmetric | app/app/src/main/java/com/octo4a/utils/SemVer.kt:95-121 | swapping two identifiers negates their comparison and keeps whether it throws |
| SemVer.CompareAntisymmetric | app/app/src/main/java/com/octo4a/utils/SemVer.kt:78-133 | `a.compareTo(b)` is the negation of `b.compareTo(a)`, and one throws exactly when the other does |
| SemVer.CompareReflexive | app/app/src/main/java/com/octo4a/utils/SemVer.kt:78-133 | every version compares equal to itself |
| SemVer.BuildMetadataIgnored | app/app/src/main/java/com/octo4a/utils/SemVer.kt:71-78 | build metadata never affects the comparison |
| SemVer.FirstDifferenceDecides | app/app/src/main/java/com/octo4a/utils/SemVer.kt:93-122 | the first pre-release identifier that differs decides the order |
| SemVer.PrefixComesFirst | app/app/src/main/java/com/octo4a/utils/SemVer.kt:124-126 | a pre-release whose identifiers are a proper prefix of another's ranks lower |
| Installation.NewerOrSamePreorder | app/app/src/main/java/com/octo4a/viewmodel/InstallationViewModel.kt:34 | ordering releases by descending `publishedAt` is a total preorder, so the sort is well defined |
| Installation.NewestFirst | app/app/src/main/java/com/octo4a/viewmodel/InstallationViewModel.kt:34 | the sorted list holds the same releases, newest `publishedAt` first (Kotlin string order) |
| Installation.NewestFirstStable | app/app/src/main/java/com/octo4a/viewmodel/InstallationViewModel.kt:34 | the sort is stable: releases published at the same time keep their previous order |
| Installation.ItemOf | app/app/src/main/java/com/octo4a/viewmodel/InstallationViewModel.kt:38-46 | a release becomes an item exactly when its name splits on `-` into two parts and some asset name contains the architecture; the item is titled "OctoPrint <second part>", its version is the first part without a leading `v`, it keeps the prerelease flag, is not recommended, and links the first matching asset |
| Installation.ItemsMembers | app/app/src/main/java/com/octo4a/viewmodel/InstallationViewModel.kt:38-46 | `mapNotNull`: an item is listed exactly when some release maps to it |
| Installation.ItemsAppend | app/app/src/main/java/com/octo4a/viewmodel/InstallationViewModel.kt:38-46 | mapping a concatenation gives the concatenation of the mapped parts |
| Installation.Recommend | app/app/src/main/java/com/octo4a/viewmodel/InstallationViewModel.kt:49-52 | the first item that is not a prerelease is marked recommended and returned; when every item is a prerelease nothing is recommended and the list is unchanged |
| Installation.RecommendMarksOne | app/app/src/main/java/com/octo4a/viewmodel/InstallationViewModel.kt:49-52 | on a list with nothing marked, the mark lands on exactly one item, the one returned, and every item before it is a prerelease |
| Installation.FetchBootstrapReleases | app/app/src/main/java/com/octo4a/viewmodel/InstallationViewModel.kt:26-64 | a failed fetch or architecture lookup leaves the state as it was; otherwise the list is the newest-first, filtered and mapped releases with the recommendation applied, the recommended item is selected, and it is passed on for installation when there is one |
| Installation.FetchRecommendsFirstRelease | app/app/src/main/java/com/octo4a/viewmodel/InstallationViewModel.kt:49-57 | after a fetch at most one item is recommended; it is selected exactly when one exists, and it is the first item that is not a prerelease |
| Installation.SelectBootstrapRelease | app/app/src/main/java/com/octo4a/viewmodel/InstallationViewModel.kt:66-69 | selecting an item selects it and passes it on for installation, leaving the list alone |
| Installation.ItemOfDashedName | app/app/src/main/java/com/octo4a/viewmodel/InstallationViewModel.kt:41-45 | a release named "<b>-<o>" with a matching asset becomes "OctoPrint <o>" with version <b> minus a leading `v` |
| BootstrapRepository.Pre5OnlyOn32Bit | app/app/src/main/java/com/octo4a/repository/BootstrapRepository.kt:43-49 | the pre-Lollipop bootstrap is chosen only below API 21 and only on a 32-bit device: one whose `os.arch` is `i686` or that lists no 64-bit ABI |
| BootstrapRepository.SelectAsset | app/app/src/main/java/com/octo4a/repository/BootstrapRepository.kt:59-66 | the release used is the first one with an asset whose name contains the architecture, and the asset is that release's first such asset; it fails exactly when no release has one |
| BootstrapRepository.RunCommand | app/app/src/main/java/com/octo4a/repository/BootstrapRepository.kt:172-191 | a prooted command is `sh run-bootstrap.sh <user> /bin/sh -c <command>`, with user `root` exactly when `root` is asked for and `octoprint` otherwise; a direct one is `sh -c <command>`; both run in the prefix directory with HOME and PWD set to it |
| BootstrapRepository.SetupCommands | app/app/src/main/java/com/octo4a/repository/BootstrapRepository.kt:116-129 | after unpacking, the set-up runs `ls` and `chmod -R 700 .` first, directly, the root swap third when the pre-Lollipop bootstrap is used, and the last four commands inside proot |
| BootstrapRepository.SwapExactlyOnPre5 | app/app/src/main/java/com/octo4a/repository/BootstrapRepository.kt:118-120 | the `root-pre5` swap is among the set-up commands exactly when the pre-Lollipop bootstrap is used |
| BootstrapRepository.Install | app/app/src/main/java/com/octo4a/repository/BootstrapRepository.kt:80-129 | the download follows the earlier steps; the install succeeds exactly when unpacking and the rename from staging succeed, and only then are the set-up commands run, after the rename; an unpacking exception is reported as it is, and a failed rename as `Unable to rename staging folder` |
| BootstrapRepository.SetupBootstrap | app/app/src/main/java/com/octo4a/repository/BootstrapRepository.kt:51-146 | an existing prefix directory means nothing is done; a failed fetch or architecture lookup fails before any effect; a failed deletion of the staging folder fails with its exception after the deletions it made and nothing else; a success has found an asset for the architecture |
| BootstrapRepository.SetupBootstrapSucceeded | app/app/src/main/java/com/octo4a/repository/BootstrapRepository.kt:80-129 | a successful run downloaded the asset chosen for the architecture and renamed the staging folder right before the set-up commands |
| BootstrapRepository.FailureStartsNothing | app/app/src/main/java/com/octo4a/repository/BootstrapRepository.kt:51-146 | no set-up command is started by a run that ends in an exception |
| BootstrapRepository.NoAssetNoDownload | app/app/src/main/java/com/octo4a/repository/BootstrapRepository.kt:62-80 | when no release has an asset for the architecture, `asset!!` throws after the staging folder is removed: nothing is downloaded or run |
| BootstrapUtils.DeleteFolder | app/app/src/main/java/com/octo4a/octoprint/BootstrapUtils.kt:109-125 | the deletion throws exactly when some node it reaches cannot be deleted; every deleted path lies below the folder through real directories, and on success every such path is deleted, the folder itself last; in a real directory everything deleted before the folder (and everything, on failure) lies below one of its children; a failure keeps the deletions made before it; a file or a link is deleted alone, or throws `Unable to delete file …` / `directory …` |
| BootstrapUtils.DeleteAll | app/app/src/main/java/com/octo4a/octoprint/BootstrapUtils.kt:113-119 | the children from a given index are deleted in turn; the loop succeeds exactly when each of them can be fully deleted, then deletes every path below them, and never deletes anything outside them |
| BootstrapUtils.DeleteDoesNotFollowLinks | app/app/src/main/java/com/octo4a/octoprint/BootstrapUtils.kt:109-112 | a directory reached through a symbolic link is deleted as a link: nothing behind it is listed or deleted |
| BootstrapUtils.ParseSymlinkLine | app/app/src/main/java/com/octo4a/octoprint/BootstrapUtils.kt:49-55 | a line is malformed exactly when splitting on U+2190 and dropping trailing empty parts does not give two parts, and the exception names the line; otherwise the target is the first part and the link is the second part under the staging directory with every `./` removed |
| BootstrapUtils.ParseSymlinkLineOf | app/app/src/main/java/com/octo4a/octoprint/BootstrapUtils.kt:49-55 | a line `target←entry` with a non-empty entry reads back as that target and the link path of that entry |
| BootstrapUtils.LineWithoutArrow | app/app/src/main/java/com/octo4a/octoprint/BootstrapUtils.kt:49-51 | a line without the arrow is malformed |
| BootstrapUtils.LinkPathKeepsStaging | app/app/src/main/java/com/octo4a/octoprint/BootstrapUtils.kt:53-54 | removing `./` never touches the staging prefix: the link path is the staging directory followed by the entry with `./` removed |
| BootstrapUtils.FileEffects | app/app/src/main/java/com/octo4a/octoprint/BootstrapUtils.kt:61-78 | an ordinary entry makes its directory, or makes its parent and writes the file; it is made executable (mode 448, octal 0700) exactly when it is a file under `bin/`, `libexec` or `lib/apt/methods` |
| BootstrapUtils.ReadSymlinks | app/app/src/main/java/com/octo4a/octoprint/BootstrapUtils.kt:45-59 | SYMLINKS.txt read line by line: one directory per recorded link, for that link's parent, in order, and a link for every line when the reading does not throw |
| BootstrapUtils.ReadLinks | app/app/src/main/java/com/octo4a/octoprint/BootstrapUtils.kt:47-59 | each line is parsed and its link's directory made before the next line is read: the links recorded are the parses of the lines before the first line that fails, each with its directory, and the exception, if any, is that line's |
| BootstrapUtils.ReadSymlinksStopsAtMalformed | app/app/src/main/java/com/octo4a/octoprint/BootstrapUtils.kt:48-57 | reading succeeds exactly when every line parses; each recorded link is its line's, and a failed reading stops at the first malformed line with `Malformed symlink line: …` for it, after the directories of the lines before it |
| BootstrapUtils.Unpack | app/app/src/main/java/com/octo4a/octoprint/BootstrapUtils.kt:42-82 | the archive loop's effects, in order, up to and including the directories made before a malformed SYMLINKS.txt line: it makes no link, never renames and never finishes; every chmod is mode 448 on an executable file entry; when it ends with no links and no error, no SYMLINKS.txt entry had a line |
| BootstrapUtils.SetupPlan | app/app/src/main/java/com/octo4a/octoprint/BootstrapUtils.kt:16-101 | the run when every file operation succeeds: an existing prefix directory means only `whenDone`; otherwise `whenDone` is called exactly when there is no exception, and last; success needs the rename to succeed; a failed deletion of the staging folder ends the run after the deletions it made |
| BootstrapUtils.EffectError | app/app/src/main/java/com/octo4a/octoprint/BootstrapUtils.kt:103-106 | deletions, the rename and `whenDone` never throw here; `ensureDirectoryExists` throws exactly when the directory cannot be created, with `Unable to create directory: <path>` |
| BootstrapUtils.Perform | app/app/src/main/java/com/octo4a/octoprint/BootstrapUtils.kt:42-88 | operations run in order until one throws: what was done is a prefix of them, each without failure; the run is complete exactly when none fails, and otherwise stops at the first that fails with its exception |
| BootstrapUtils.SetupBootstrap | app/app/src/main/java/com/octo4a/octoprint/BootstrapUtils.kt:16-101 | an existing prefix directory means only `whenDone`; otherwise the run is a prefix of the plan in which no operation failed; it ends without exception only as the plan does, and any other exception is the URL's open failure or that of the first failing operation |
| BootstrapUtils.SetupBootstrapFinishes | app/app/src/main/java/com/octo4a/octoprint/BootstrapUtils.kt:84-95 | `whenDone` is called exactly when there is no exception, as the last effect, after a successful rename |
| BootstrapUtils.NoFaultsFollowPlan | app/app/src/main/java/com/octo4a/octoprint/BootstrapUtils.kt:42-88 | when the URL opens and no directory, write, chmod or link fails, the run is the plan |
| BootstrapUtils.WriteFailureMakesNoLink | app/app/src/main/java/com/octo4a/octoprint/BootstrapUtils.kt:68-88 | a failed write of an entry's file ends the run with an exception before any link is made and without `whenDone` |
| BootstrapUtils.SetupParts | app/app/src/main/java/com/octo4a/octoprint/BootstrapUtils.kt:27-95 | a planned run that gets past clearing the staging directory does the deletions, then the unpacking, then the links, then the rename and `whenDone`, each only as far as it got |
| BootstrapUtils.LinksAfterPlannedFiles | app/app/src/main/java/com/octo4a/octoprint/BootstrapUtils.kt:42-88 | in the plan, no symbolic link is made before the last file of the archive is written |
| BootstrapUtils.LinksAfterFiles | app/app/src/main/java/com/octo4a/octoprint/BootstrapUtils.kt:42-88 | also when operations fail, no symbolic link is made before the last file written |
| BootstrapUtils.ChmodOnlyPlanned | app/app/src/main/java/com/octo4a/octoprint/BootstrapUtils.kt:67-77 | in the plan, only file entries under `bin/`, `libexec` or `lib/apt/methods` are made executable, and always with mode 448 |
| BootstrapUtils.ChmodOnlyExecutables | app/app/src/main/java/com/octo4a/octoprint/BootstrapUtils.kt:67-77 | also when operations fail, only file entries under `bin/`, `libexec` or `lib/apt/methods` of the archive are made executable, and always with mode 448 |
| BootstrapUtils.NoLinksPlanned | app/app/src/main/java/com/octo4a/octoprint/BootstrapUtils.kt:84-85 | when no file operation fails, an archive without SYMLINKS.txt ends in an exception and makes no link |
| BootstrapUtils.NoLinksNoSymlinks | app/app/src/main/java/com/octo4a/octoprint/BootstrapUtils.kt:84-85 | an archive without SYMLINKS.txt ends in an exception and makes no link, whatever fails |
| BootstrapUtils.RunBashCommand | app/app/src/main/java/com/octo4a/octoprint/BootstrapUtils.kt:127-144 | `runBashCommand` runs bash with `-c` and a script that first changes into the home directory |
| BootstrapUtils.RunBashCommandKeepsCommand | app/app/src/main/java/com/octo4a/octoprint/BootstrapUtils.kt:142 | the command can be read back unchanged from the script after the `cd` prefix |
| BootstrapUtils.DownloadUrlAsWritten | app/app/src/main/java/com/octo4a/octoprint/BootstrapUtils.kt:33-40 | as written, the archive address always names the aarch64 archive, whatever `os.arch` says |
| BootstrapUtils.DownloadUrl | app/app/src/main/java/com/octo4a/octoprint/BootstrapUtils.kt:33-38 | the address computed before the overwrite names the aarch64 archive on `aarch64` and the arm archive otherwise |
| BootstrapUtils.ArmGetsAarch64Archive | app/app/src/main/java/com/octo4a/octoprint/BootstrapUtils.kt:33-40 | on an `armv7l` device the address as written names the aarch64 archive, while the computed one does not |
| Network.Classify | app/app/src/main/java/com/octo4a/viewmodel/NetworkStatusViewModel.kt:104-111 | the first matching name prefix decides: `wlan` is Wi-Fi, else `eth` Ethernet, else `tun` VPN, else `ppp`, `rmnet` or `v4-rmnet` cellular; any other name falls back to Wi-Fi |
| Network.ClassifyFamilies | app/app/src/main/java/com/octo4a/viewmodel/NetworkStatusViewModel.kt:104-109 | every name starting with one of the listed prefixes gets that prefix's type |
| Network.InterfaceEntries | app/app/src/main/java/com/octo4a/viewmodel/NetworkStatusViewModel.kt:98-115 | an interface contributes exactly one entry per address that is neither loopback nor link-local, typed by the interface name, with no port and marked IPv6 exactly when the text holds a colon |
| Network.Collect | app/app/src/main/java/com/octo4a/viewmodel/NetworkStatusViewModel.kt:95-116 | every collected entry comes from a listed address of some interface, carries its interface's type and has no port; it is IPv6 exactly when its text holds a colon |
| Network.CollectMembers | app/app/src/main/java/com/octo4a/viewmodel/NetworkStatusViewModel.kt:95-116 | an entry is collected exactly when it is the entry of an address, neither loopback nor link-local, of some enumerated interface: nothing listed is dropped and nothing else is added |
| Network.Preorders | app/app/src/main/java/com/octo4a/viewmodel/NetworkStatusViewModel.kt:121 | ordering by address text, by type ordinal and by the IPv6 flag are each total preorders |
| Network.LexIsKey | app/app/src/main/java/com/octo4a/viewmodel/NetworkStatusViewModel.kt:121 | three stable sorts, by address, then by type, then by IPv6, order by the IPv6 flag first, then by type, then by address |
| Network.SortAddresses | app/app/src/main/java/com/octo4a/viewmodel/NetworkStatusViewModel.kt:121 | the sorted list is a permutation of the input ordered IPv4 before IPv6, then by type ordinal, then by address text |
| Network.KeyLeAntisymmetric | app/app/src/main/java/com/octo4a/viewmodel/NetworkStatusViewModel.kt:121 | two entries that sort either way round agree on the IPv6 flag, the type and the address |
| Network.ScanIpAddresses | app/app/src/main/java/com/octo4a/viewmodel/NetworkStatusViewModel.kt:92-122 | the published list is a permutation of the addresses collected before any exception, in the sorted order; an exception is only logged |
| Network.ScanPublishesListed | app/app/src/main/java/com/octo4a/viewmodel/NetworkStatusViewModel.kt:92-122 | the published list holds exactly the entries of every address that is neither loopback nor link-local, each with its interface's type |
| Network.NoLoopbackListed | app/app/src/main/java/com/octo4a/viewmodel/NetworkStatusViewModel.kt:101 | every published address belongs to an interface address that is neither loopback nor link-local |
| CommFix.Scan | scripts/comm-fix.py:67-74 | the `/dev` loop lists `/dev/<name>` for entries whose test passes; when no test raises, every passing entry is listed; a raise ends the loop, and a raise on the first entry lists nothing |
| CommFix.DevScanAsWrittenIsEmpty | scripts/comm-fix.py:69-74 | as written the test raises `NameError` on every entry, so the scan lists nothing; with the pattern defined every serial device is listed |
| CommFix.TtyAcmLostAsWritten | scripts/comm-fix.py:69-74 | a `/dev` holding only `ttyACM0` gives no port as written and `/dev/ttyACM0` as intended |
| CommFix.AddGlobbed | scripts/comm-fix.py:76-80 | the additional ports append their glob results after the platform candidates, which stay in front; nothing else is added |
| CommFix.AddGlobbedAppends | scripts/comm-fix.py:79-80 | the result is the candidates followed by each pattern's glob results, in pattern order |
| CommFix.RunHooks | scripts/comm-fix.py:82-92 | the hooks only append: the earlier candidates stay in front; when every hook raises, the list is unchanged |
| CommFix.FailingHookSkipped | scripts/comm-fix.py:86-92 | a hook that raises is logged and adds nothing |
| CommFix.HookResultAppended | scripts/comm-fix.py:86-87 | a hook's names are appended right after the candidates it was given |
| CommFix.Blacklist | scripts/comm-fix.py:94-100 | filtering keeps only candidates that no blacklisted pattern matches |
| CommFix.BlacklistIsOneFilter | scripts/comm-fix.py:94-100 | filtering pattern by pattern equals one filter by "no pattern matches" |
| CommFix.MoveToFront | scripts/comm-fix.py:102-106 | the last used port, when listed, is moved from its first position to the front and the others keep their order; otherwise nothing changes; the elements are always the same |
| CommFix.MoveToFrontIdempotent | scripts/comm-fix.py:102-106 | moving the last used port to the front twice is the same as once |
| CommFix.PlatformCandidates | scripts/comm-fix.py:53-74 | on Windows the candidates are the registry values, or none when the registry read raises; elsewhere they are the `/dev` scan, and an unreadable `/dev` gives none |
| CommFix.PlatformCandidatesAsWrittenEmpty | scripts/comm-fix.py:53-74 | as written neither branch yields a port: `winreg` is never imported, so the registry read raises `NameError`, and so does the `/dev` test |
| CommFix.PatchedSerialListWith | scripts/comm-fix.py:52-108 | the list is the collected candidates that no blacklisted pattern matches, in collection order, except that the first occurrence of the last used port, when it is listed, is moved to the front |
| CommFix.PatchedSerialListAsWritten | scripts/comm-fix.py:52-108 | as written, whatever the registry or `/dev` hold, the list is the additional ports and hook names that no pattern blacklists, in the order collected, with the first occurrence of the last used port moved to the front |
| CommFix.NoRegistryPortsAsWritten | scripts/comm-fix.py:53-64 | on Windows with no additional ports and no hooks the list as written is always empty, while with `winreg` imported it offers every registry port no pattern blacklists |
| CommFix.NoDevicesAsWritten | scripts/comm-fix.py:52-108 | on Linux with no additional ports and no hooks the list as written is always empty, while the intended one offers every serial device no pattern blacklists |
| DocumentProvider.FileForDocId | app/app/src/main/java/com/octo4a/OctoPrintDocumentProvider.kt:245-250 | a document id resolves exactly when that path exists, to the same path; otherwise the exception is "<path> not found" |
| DocumentProvider.DocIdRoundTrip | app/app/src/main/java/com/octo4a/OctoPrintDocumentProvider.kt:231-250 | the id of an existing file resolves back to that file |
| DocumentProvider.CandidateInjective | app/app/src/main/java/com/octo4a/OctoPrintDocumentProvider.kt:93-97 | the names tried for a new document are pairwise different |
| DocumentProvider.NextCandidateUntried | app/app/src/main/java/com/octo4a/OctoPrintDocumentProvider.kt:95-97 | the next name tried is none of the names tried before, so the loop ends once the existing paths run out |
| DocumentProvider.FreeCandidate | app/app/src/main/java/com/octo4a/OctoPrintDocumentProvider.kt:93-97 | the loop stops at a candidate that does not exist, and every candidate before it exists |
| DocumentProvider.CreateDocument | app/app/src/main/java/com/octo4a/OctoPrintDocumentProvider.kt:91-112 | the new path is the first of "name", "name (2)", "name (3)", … that does not exist; a directory is made exactly for the directory MIME type; the call returns the path exactly when creation succeeds and otherwise fails naming the path |
| DocumentProvider.IsChildDocumentIsPrefix | app/app/src/main/java/com/octo4a/OctoPrintDocumentProvider.kt:163-165 | a document counts as a child exactly when its id starts with the parent's id, which also accepts a sibling such as `/a/bc` under `/a/b` |
| DocumentProvider.GetMimeType | app/app/src/main/java/com/octo4a/OctoPrintDocumentProvider.kt:252-265 | a directory has the directory MIME type; a file with no dot is `application/octet-stream`; otherwise the lower-cased text after the last dot is looked up, and an unknown extension falls back to `application/octet-stream` |
| DocumentProvider.MimeOfExtension | app/app/src/main/java/com/octo4a/OctoPrintDocumentProvider.kt:256-263 | a name `base.ext` with no dot in `ext` gets the type looked up for lower-cased `ext` |
| DocumentProvider.SearchFrom | app/app/src/main/java/com/octo4a/OctoPrintDocumentProvider.kt:137-159 | the breadth-first loop keeps the results found so far in front, adds only files found from the queue, stops at 50, and below 50 has found every matching file reachable from the queue; it throws only when an unreadable directory inside home is reachable from the queue, and always succeeds when none is |
| DocumentProvider.QueueFoundCons | app/app/src/main/java/com/octo4a/OctoPrintDocumentProvider.kt:140-141 | taking the first file off the queue splits what can be found into what lies under it and what lies under the rest |
| DocumentProvider.ExpandKeepsFound | app/app/src/main/java/com/octo4a/OctoPrintDocumentProvider.kt:150-152 | replacing a directory inside home by its children keeps exactly what can be found |
| DocumentProvider.QuerySearchDocuments | app/app/src/main/java/com/octo4a/OctoPrintDocumentProvider.kt:128-161 | an unknown root fails with `… not found`; an unreadable directory inside home reached before 50 results makes it throw, and without one it succeeds; a success has at most 50 results, each a matching file under the root reached only through readable folders inside home, and all of them when fewer than 50 are returned |
| DocumentProvider.FoundIsMatchingFile | app/app/src/main/java/com/octo4a/OctoPrintDocumentProvider.kt:144-156 | every result is the path of a file, not a folder, of the searched tree, reached from the root through folders inside home, itself inside home, and whose lower-cased name contains the query |
| Extensions.GetExtensionSettings | app/app/src/main/java/com/octo4a/repository/ExtensionsRepository.kt:151-153 | a setting is found exactly when one has the name, and it is the first one with that name |
| Extensions.Upsert | app/app/src/main/java/com/octo4a/repository/ExtensionsRepository.kt:185-190 | a new name is appended with the given flag; an existing name has its first entry's flag replaced and nothing else changes |
| Extensions.UpsertThenGet | app/app/src/main/java/com/octo4a/repository/ExtensionsRepository.kt:185-190 | after the update the name's setting reads back with the flag just written |
| Extensions.UpsertKeepsOthers | app/app/src/main/java/com/octo4a/repository/ExtensionsRepository.kt:185-190 | updating one name leaves every other name's setting as it was |
| Extensions.ValidExtensions | app/app/src/main/java/com/octo4a/repository/ExtensionsRepository.kt:207-241 | the registered extensions are exactly the directories with a manifest file, a start.sh file and a readable title and description, each registered Stopped |
| Extensions.ToStartMembers | app/app/src/main/java/com/octo4a/repository/ExtensionsRepository.kt:57-63 | only registered extensions are started, each for an enabled setting of its name, and every enabled setting whose name is registered starts one |
| Extensions.StartedIffEnabledAndRegistered | app/app/src/main/java/com/octo4a/repository/ExtensionsRepository.kt:57-63 | an extension of a name is started exactly when some enabled setting has that name and an extension of that name is registered |
| Extensions.StartUpNecessaryExtensions | app/app/src/main/java/com/octo4a/repository/ExtensionsRepository.kt:53-67 | a directory listing that fails throws before anything is published, so nothing changes and nothing is launched; otherwise the valid extensions replace the published list; every launched name has a live thread entry, and names with no enabled setting keep their thread entries |
| Extensions.PublishedIffValidDir | app/app/src/main/java/com/octo4a/repository/ExtensionsRepository.kt:207-240 | an extension is published under a name iff a valid directory has that name, and every extension published anew is Stopped |
| Extensions.StartFor | app/app/src/main/java/com/octo4a/repository/ExtensionsRepository.kt:57-61 | one setting starts the first published extension of its name only when it is enabled; it launches at once when that extension is Stopped; only that name's status and thread entry change, and live thread entries stay live |
| Extensions.StartEach | app/app/src/main/java/com/octo4a/repository/ExtensionsRepository.kt:57-63 | the start loop keeps the published entries apart from their statuses, leaves the thread entries of names with no enabled setting alone, and keeps every live thread entry live |
| Extensions.StartEachSound | app/app/src/main/java/com/octo4a/repository/ExtensionsRepository.kt:57-63 | a launched name has an enabled setting and a published extension |
| Extensions.StartEachComplete | app/app/src/main/java/com/octo4a/repository/ExtensionsRepository.kt:57-63 | an enabled name whose published extensions are all Stopped is launched |
| Extensions.StartUpLaunches | app/app/src/main/java/com/octo4a/repository/ExtensionsRepository.kt:53-67 | start-up launches a name iff it has an enabled setting and a valid directory, whatever ran before, because line 240 republishes every extension as Stopped |
| Extensions.StopDecision | app/app/src/main/java/com/octo4a/repository/ExtensionsRepository.kt:79-116 | only the callback runs for an untracked, stopped or stopping extension; kill.sh runs for a tracked running one that has it; otherwise the thread is interrupted |
| Extensions.SetStatus | app/app/src/main/java/com/octo4a/repository/ExtensionsRepository.kt:161-176 | every published extension of the name takes the status; names, titles, descriptions and the others' statuses stay |
| Extensions.StopExtension | app/app/src/main/java/com/octo4a/repository/ExtensionsRepository.kt:79-116 | the callback-only branch changes nothing and calls back at once; the kill.sh branch marks the extension Stopping and calls back later; the interrupt branch nulls the thread entry and calls back at once |
| Extensions.KillFinished | app/app/src/main/java/com/octo4a/repository/ExtensionsRepository.kt:88-97 | when kill.sh ends the extension is Stopped and the thread map is untouched |
| Extensions.Launch | app/app/src/main/java/com/octo4a/repository/ExtensionsRepository.kt:120-124 | the callback marks the extension Running and gives it a live thread entry |
| Extensions.StartExtension | app/app/src/main/java/com/octo4a/repository/ExtensionsRepository.kt:118-149 | the launch waits exactly when stopping runs kill.sh; otherwise the extension has a live thread entry afterwards |
| Extensions.FinalStatus | app/app/src/main/java/com/octo4a/repository/ExtensionsRepository.kt:129-141 | a script ending with 0 or interrupted leaves the extension Stopped; any other exit code or exception leaves it Crashed |
| Extensions.StartThreadFinished | app/app/src/main/java/com/octo4a/repository/ExtensionsRepository.kt:129-145 | when the start thread ends its map entry is removed and every other entry stays |
| Extensions.StepsKeepConsistent | app/app/src/main/java/com/octo4a/repository/ExtensionsRepository.kt:79-149 | every step keeps each Running extension tracked in the thread map |
| Extensions.StartThenCleanExit | app/app/src/main/java/com/octo4a/repository/ExtensionsRepository.kt:118-145 | starting an untracked extension launches at once, and a clean exit leaves it Stopped and untracked |
| Extensions.StopEach | app/app/src/main/java/com/octo4a/repository/ExtensionsRepository.kt:69-77 | stopping extensions in turn removes no thread entry, touches only the targets' entries, only ever marks an extension Stopping, and keeps running extensions tracked |
| Extensions.StopAllExtensions | app/app/src/main/java/com/octo4a/repository/ExtensionsRepository.kt:69-77 | stopping all leaves the thread entries of names with no enabled setting unchanged and removes none |
| Extensions.ModifyExtensionSetting | app/app/src/main/java/com/octo4a/repository/ExtensionsRepository.kt:178-193 | disabling a published extension stops it first; the setting afterwards reads back with the new flag; the closing start-up republishes the valid extensions, and every name it launches has a live thread entry |
| Extensions.SettingChangeRelaunches | app/app/src/main/java/com/octo4a/repository/ExtensionsRepository.kt:178-193 | changing any other extension's setting launches a second start script for an enabled extension that is still running, and its thread entry is replaced |
| OctoPrintHandler.RoundToInt | app/app/src/main/java/com/octo4a/repository/OctoPrintHandlerRepository.kt:48 | Kotlin's `roundToInt` gives the integer within half a unit, ties going up |
| OctoPrintHandler.GetInstallationProgress | app/app/src/main/java/com/octo4a/repository/OctoPrintHandlerRepository.kt:28-49 | the progress is exactly 25 times the status value, so between 0 and 150 |
| OctoPrintHandler.FinishedOnlyWhenRunning | app/app/src/main/java/com/octo4a/repository/OctoPrintHandlerRepository.kt:28-53 | installation counts as finished exactly when the status is Running, which is also exactly when progress is 100; BootingUp and ShuttingDown are different statuses with the same value |
| OctoPrintHandler.ProgressAlongInstall | app/app/src/main/java/com/octo4a/repository/OctoPrintHandlerRepository.kt:28-49 | progress strictly increases along the installation statuses up to Running |
| OctoPrintHandler.GetExtrasStatus | app/app/src/main/java/com/octo4a/repository/OctoPrintHandlerRepository.kt:165-173 | an existing gcc means Installed; without it an install in progress stays Installing and anything else becomes NotInstalled |
| OctoPrintHandler.InstallExtras | app/app/src/main/java/com/octo4a/repository/OctoPrintHandlerRepository.kt:175-186 | only NotInstalled starts an install, which goes through Installing to Installed; otherwise nothing changes |
| OctoPrintHandler.ExtrasInstallRuns | app/app/src/main/java/com/octo4a/repository/OctoPrintHandlerRepository.kt:165-186 | a status check while installing keeps Installing, the install ends Installed, and an install or finished state starts nothing |
| OctoPrintHandler.GetConfigValue | app/app/src/main/java/com/octo4a/repository/OctoPrintHandlerRepository.kt:253-258 | the value holds no newline: every newline is removed, then one pair of surrounding quotes only when both ends are quotes |
| OctoPrintHandler.ConfigValueOfQuotedLine | app/app/src/main/java/com/octo4a/repository/OctoPrintHandlerRepository.kt:253-258 | a quoted value printed on one line reads back as the bare value |
| OctoPrintHandler.FindPidMatch | app/app/src/main/java/com/octo4a/repository/OctoPrintHandlerRepository.kt:197-198 | the search returns the first `pid=<digit>` position from where it starts, and none when there is none |
| OctoPrintHandler.PidFromText | app/app/src/main/java/com/octo4a/repository/OctoPrintHandlerRepository.kt:196-201 | the fallback is -1 without a match, and otherwise the value of the first match's digit run, or -1 when that overflows `Int` |
| OctoPrintHandler.GetPid | app/app/src/main/java/com/octo4a/repository/OctoPrintHandlerRepository.kt:188-204 | a readable `pid` field wins; otherwise the process text decides |
| OctoPrintHandler.PidOfProcessText | app/app/src/main/java/com/octo4a/repository/OctoPrintHandlerRepository.kt:196-198 | `Process[pid=<n>…]` with `n` in `Int` range gives back `n` |
| OctoPrintHandler.StartOctoPrint | app/app/src/main/java/com/octo4a/repository/OctoPrintHandlerRepository.kt:215-251 | a bad install only sets Corrupted; otherwise the wake lock comes first, the server starts booting, the serve command runs, and a FIFO thread starts exactly when none is alive |
| OctoPrintHandler.OnOutputLine | app/app/src/main/java/com/octo4a/repository/OctoPrintHandlerRepository.kt:233-239 | a log line containing "Listening on" means Running; any other line leaves the status |
| DpkgReplacer.FromIsBorderFree | bootstrap-builder/dpkg_replacer.go:18-19 | `com.termux` has no proper prefix that is also a suffix, so two occurrences never overlap |
| DpkgReplacer.NoOverlap | bootstrap-builder/dpkg_replacer.go:26-48 | occurrences of a border-free pattern start at least a pattern length apart |
| DpkgReplacer.ReplaceAllCharacterised | bootstrap-builder/dpkg_replacer.go:26-48 | replacing every occurrence of a border-free pattern with a same-length text keeps the length, puts the replacement at every occurrence, and leaves every byte outside an occurrence alone |
| DpkgReplacer.ReplaceInReader | bootstrap-builder/dpkg_replacer.go:21-34 | the content keeps its length; every `com.termux` becomes `com.octo4a` in place and no other byte changes |
| DpkgReplacer.ReplaceInName | bootstrap-builder/dpkg_replacer.go:48 | the same replacement on an entry name |
| DpkgReplacer.RewriteEntry | bootstrap-builder/dpkg_replacer.go:48-57 | an entry keeps its size and gets the replaced name; its content is replaced unless its size is 0, when none is copied |
| DpkgReplacer.TarLoop | bootstrap-builder/dpkg_replacer.go:40-59 | the loop succeeds only when reading reaches the end, and then writes exactly the rewritten entries in order; every failure carries one of the three tar messages |
| DpkgReplacer.ReplaceTarFile | bootstrap-builder/dpkg_replacer.go:36-63 | a tar archive that reads to its end is rewritten entry by entry; a read failure is an error |
| DpkgReplacer.WellFormedTarRewrites | bootstrap-builder/dpkg_replacer.go:36-63 | for entries whose content matches their size, the rewrite succeeds exactly when reading ends cleanly, and the entries written also match their sizes |
| DpkgReplacer.ReplaceMember | bootstrap-builder/dpkg_replacer.go:79-98 | a member's written size is always its content's length; any member but `data.tar.xz/` is copied as is, or fails with the copy message naming it when its copy fails; `data.tar.xz/` succeeds exactly when it decompresses and its tar rewrites, and is then written as `data.tar/` holding the rewritten tar |
| DpkgReplacer.StepMember | bootstrap-builder/dpkg_replacer.go:79-106 | one pass of the loop writes the member's replacement exactly when the replacement, the header write and the data write all succeed; otherwise it stops with the replacement's error, the header-write error, or the data-write error with the header already written |
| DpkgReplacer.ReplaceInArFile | bootstrap-builder/dpkg_replacer.go:65-109 | every member written is that member's replacement, in order, sized by its content; the run succeeds exactly when the archive reads to its end and every pass writes its member, and then writes all of them; otherwise the error and any orphan header are those of the first pass that stopped, or the read error |
| DpkgReplacer.NoDataTarCopied | bootstrap-builder/dpkg_replacer.go:91-106 | with no I/O failure, an archive with no `data.tar.xz/` member is copied member by member with sizes set from the contents |
| DpkgReplacer.DataWriteLeavesHeader | bootstrap-builder/dpkg_replacer.go:98-106 | a failed data write ends the run with "failed to write ar data", the member's header already in the output and no data after it |
| DpkgReplacer.DataTarRewritten | bootstrap-builder/dpkg_replacer.go:80-90 | a `data.tar.xz/` member whose tar reads cleanly becomes `data.tar/` holding the rewritten entries, sized by the new content |
| ProgressStream.Delivered | app/app/src/main/java/com/octo4a/utils/ProgressTrackingInputStream.kt:12-28 | a one-byte read counts one byte exactly when it returns a byte; a bulk read counts what it returns when positive, nothing otherwise |
| ProgressStream.Read | app/app/src/main/java/com/octo4a/utils/ProgressTrackingInputStream.kt:12-28 | each read returns what the wrapped stream returned, never lowers the total, and reports the new total exactly when it grew |
| ProgressStream.RunReportsProgress | app/app/src/main/java/com/octo4a/utils/ProgressTrackingInputStream.kt:10-28 | over any run the total is the bytes delivered; one report per productive read; the reports are positive and strictly increasing, and the last one is the final total |
| Camera.ReadableString | app/app/src/main/java/com/octo4a/camera/CameraEnumerationRepository.kt:21-23 | the text splits on `x` into exactly the width and the height in decimal |
| Camera.ReadableStringRoundTrip | app/app/src/main/java/com/octo4a/camera/CameraEnumerationRepository.kt:21-23 | the width and height can be read back from the text |
| Camera.NarrowestWide | app/app/src/main/java/com/octo4a/camera/CameraEnumerationRepository.kt:25-27 | a reference search: the first of the narrowest sizes at least 1000 pixels wide, and none exactly when no size is that wide |
| Camera.GetRecommendedSize | app/app/src/main/java/com/octo4a/camera/CameraEnumerationRepository.kt:25-27 | the recommended size is the first of the narrowest sizes at least 1000 wide, and none exactly when there is none |
| Camera.FirstSortedMatch | app/app/src/main/java/com/octo4a/camera/CameraEnumerationRepository.kt:25-27 | the stable sort by width followed by the first size at least 1000 wide picks the same size as the reference search |
| Camera.FirstMatchIsNarrowest | app/app/src/main/java/com/octo4a/camera/CameraEnumerationRepository.kt:26 | on a list sorted by width the first wide size is the narrowest wide one |
| Camera.InsertFirstMatch | app/app/src/main/java/com/octo4a/camera/CameraEnumerationRepository.kt:26 | inserting a size into a sorted list changes the first wide size only when the new one is wide and strictly narrower |
| Camera.DescribeRepository | app/app/src/main/java/com/octo4a/camera/CameraEnumerationRepository.kt:29-40 | the label starts "Back" exactly when the lens counts as back-facing for the SDK level (the Camera2 constant from API 21, the Camera1 one before) and "Front" otherwise; the whole label is "<side> camera, <n> MP" with n the megapixels in decimal |
| Camera.DescribeEnumeration | app/app/src/main/java/com/octo4a/camera/CameraEnumeration.kt:12-15 | the label starts "Front" exactly for the front lens and "Back" for every other value; the whole label is "<side> camera, <n> MP" |
| Camera.LabelDetermines | app/app/src/main/java/com/octo4a/camera/CameraEnumeration.kt:12-15 | a "<side> camera, <n> MP" label gives back its side and its number: equal labels have equal sides and equal numbers |
| Camera.RepositoryLabelDetermines | app/app/src/main/java/com/octo4a/camera/CameraEnumerationRepository.kt:29-40 | two cameras with the same repository label agree on whether they face back and on their megapixels |
| Camera.EnumerationLabelDetermines | app/app/src/main/java/com/octo4a/camera/CameraEnumeration.kt:12-15 | two cameras with the same label agree on whether they face front and on their megapixels |
| Camera.DescriptionsAgree | app/app/src/main/java/com/octo4a/camera/CameraEnumerationRepository.kt:29-40 | from API 21 the two labels agree for the front and back lenses; for any other lens value one says "Front" and the other "Back" |
| Camera.Megapixels | app/app/src/main/java/com/octo4a/camera/CameraEnumerationRepository.kt:64-89 | megapixels are whole units of 1024000 pixels, rounded down |
| Camera.Describe2 | app/app/src/main/java/com/octo4a/camera/CameraEnumerationRepository.kt:60-73 | a Camera2 camera is described by its id, the megapixels of its pixel array, its lens facing, and its YUV output sizes, or none when there is no configuration map |
| Camera.EnumerateDevices | app/app/src/main/java/com/octo4a/camera/CameraEnumeration.kt:21-33 | one description per camera id, in order |
| Camera.EnumerateLegacy | app/app/src/main/java/com/octo4a/camera/CameraEnumerationRepository.kt:81-100 | before API 21 camera `i` is described with id "i", the megapixels of its picture size, its facing and its preview sizes |
| Camera.LegacyIdsDistinct | app/app/src/main/java/com/octo4a/camera/CameraEnumerationRepository.kt:90-91 | different legacy cameras get different ids |
| Camera.CameraWithId | app/app/src/main/java/com/octo4a/camera/CameraEnumerationRepository.kt:47-49 | the camera found has the id and is the first with it; none when nothing is enumerated or no camera has it |
| Camera.CameraWithIdFresh | app/app/src/main/java/com/octo4a/camera/CameraEnumeration.kt:35-37 | looking up a camera from a fresh enumeration finds one exactly when some id matches, and then it is the description of the first camera with that id |
| Camera.LegacyEffects | app/app/src/main/java/com/octo4a/camera/CameraEnumerationRepository.kt:75-105 | each legacy camera is opened and released; a running legacy service is stopped first and restarted last |
| Camera.EnumerateCameras | app/app/src/main/java/com/octo4a/camera/CameraEnumerationRepository.kt:51-111 | without permission, or once done, nothing changes; otherwise the cameras are enumerated with the API for the SDK level and marked done |
| Camera.EnumerateOnce | app/app/src/main/java/com/octo4a/camera/CameraEnumerationRepository.kt:56-109 | after one permitted enumeration any later call changes nothing and has no effect |
| Rotate.KtDivTruncates | app/app/src/main/java/com/octo4a/camera/RotateUtils.kt:9 | Kotlin's `/` on `Int` truncates toward zero: the remainder has the sign of the dividend and is smaller than the divisor |
| Rotate.BufferSizeSign | app/app/src/main/java/com/octo4a/camera/RotateUtils.kt:8-10 | the output buffer is one and a half luma planes |
| Rotate.Luma270 | app/app/src/main/java/com/octo4a/camera/RotateUtils.kt:13-21 | the luma loop succeeds exactly when the frame has a full luma plane, and puts every pixel where a counter-clockwise quarter turn sends it |
| Rotate.Luma90 | app/app/src/main/java/com/octo4a/camera/RotateUtils.kt:81-89 | the luma loop succeeds exactly when the frame has a full luma plane, and puts every pixel where a clockwise quarter turn sends it |
| Rotate.ChromaPairs | app/app/src/main/java/com/octo4a/camera/RotateUtils.kt:23-36 | the chroma loop reads the interleaved pairs column by column, failing exactly when a read leaves the frame |
| Rotate.PairsFit | app/app/src/main/java/com/octo4a/camera/RotateUtils.kt:8-36 | the chroma pairs always fit after the luma plane in the output, so only reads can throw |
| Rotate.Place270 | app/app/src/main/java/com/octo4a/camera/RotateUtils.kt:11-36 | the rotated luma fills the front of the output and the pairs follow the luma plane; the rest stays zero |
| Rotate.Place90 | app/app/src/main/java/com/octo4a/camera/RotateUtils.kt:79-104 | the pairs fill the output from its end backwards; the luma plane fills the front |
| Rotate.Rotate270 | app/app/src/main/java/com/octo4a/camera/RotateUtils.kt:6-41 | the rotation succeeds exactly when every read stays in the frame, and then the output is the frame turned a quarter counter-clockwise with its chroma pairs after the luma plane and zeros in every byte neither writes; a read outside the frame makes it return null |
| Rotate.Rotate90 | app/app/src/main/java/com/octo4a/camera/RotateUtils.kt:74-109 | the rotation succeeds exactly when every read stays in the frame, and then the output is the frame turned a quarter clockwise with its chroma pairs written from the end and zeros between the two |
| Rotate.Luma180 | app/app/src/main/java/com/octo4a/camera/RotateUtils.kt:53-58 | the luma plane is reversed, failing exactly when it is not all there |
| Rotate.Chroma180 | app/app/src/main/java/com/octo4a/camera/RotateUtils.kt:59-64 | the chroma pairs are taken in reverse pair order, each pair kept in order |
| Rotate.Rotate180 | app/app/src/main/java/com/octo4a/camera/RotateUtils.kt:46-69 | the half turn succeeds exactly when the reads stay in the frame and the chroma area holds whole pairs, and then reverses the luma and the pair order |
| Rotate.Rotate180Twice | app/app/src/main/java/com/octo4a/camera/RotateUtils.kt:46-69 | turning a full-size frame by half twice gives the frame back |
| Rotate.EvenDimensionsOk | app/app/src/main/java/com/octo4a/camera/RotateUtils.kt:46-69 | a full-size frame with even width and height always turns by half |
| Rotate.Dispatch | app/app/src/main/java/com/octo4a/camera/RotateUtils.kt:112-121 | 270 and 180 select their turn; every other angle gets the clockwise quarter turn |
| Rotate.RotateBy | app/app/src/main/java/com/octo4a/camera/RotateUtils.kt:112-121 | `rotate` does what the selected turn does, with its failure condition |
| Nv21.CopyLuma | app/app/src/main/jni/yuv2rgb.cpp:19-23 | the luma loop fills the front `width * height` bytes with the luma rows, read through the row stride, and leaves the rest of the array alone |
| Nv21.CopyChromaRow | app/app/src/main/jni/yuv2rgb.cpp:29-36 | one chroma row appends a V byte then a U byte per sample after what was already written, moves `idUV` two bytes per sample and leaves the bytes around it alone |
| Nv21.CopyChroma | app/app/src/main/jni/yuv2rgb.cpp:25-37 | the chroma loop fills exactly the interleaved chroma plane after the luma plane and leaves the bytes before and after it alone |
| Nv21.Yuv420ToNv21 | app/app/src/main/jni/yuv2rgb.cpp:15-38 | the two loops produce the packed NV21 layout |
| Nv21.PackedSizeIsFrameSize | app/app/src/main/jni/yuv2rgb.cpp:19-37 | the packed planes take at most the `width * height * 3 / 2` bytes of an NV21 frame, and exactly that when both sides are even |
| Nv21.LumaPlaneAt | app/app/src/main/jni/yuv2rgb.cpp:19-23 | byte `r * width + c` of the luma plane is luma pixel `c` of row `r` of the strided source |
| Nv21.ChromaRowAt | app/app/src/main/jni/yuv2rgb.cpp:30-36 | in a chroma row, byte `2k` is the V sample `k` and byte `2k + 1` the U sample `k`, read through the pixel stride |
| Nv21.ChromaPlaneAt | app/app/src/main/jni/yuv2rgb.cpp:25-37 | byte `2 * (r * (width / 2) + c)` of the chroma plane is V sample `(r, c)` and the next byte is U, read through the row and pixel strides |
| Nv21.PackedLuma | app/app/src/main/jni/yuv2rgb.cpp:19-23 | in the output, byte `r * width + c` is luma pixel `(r, c)` |
| Nv21.PackedChroma | app/app/src/main/jni/yuv2rgb.cpp:25-37 | in the output, the pair at `width * height + 2 * (r * (width / 2) + c)` is V then U of chroma sample `(r, c)` |
| Nv21.PackedTail | app/app/src/main/jni/yuv2rgb.cpp:15-38 | output bytes past the packed planes keep the values the array had |
| Nv21.NativeYuv420ToNv21 | app/app/src/main/jni/yuv2rgb.cpp:44-68 | the entry point fails exactly when a buffer lookup came back NULL, and otherwise returns the packed layout |
| YCbCr.CDivTruncates | app/app/src/main/rs/yuv2rgb.rs:22-24 | C division truncates toward zero: the remainder has the sign of the dividend and is smaller than the divisor, so negative quotients round up |
| YCbCr.Clamp | app/app/src/main/rs/yuv2rgb.rs:25-27 | each channel ends in 0..255, unchanged when already inside, 0 below and 255 above |
| YCbCr.EvenColumn | app/app/src/main/rs/yuv2rgb.rs:19-20 | `x & ~1` is the even column at or just below `x` |
| YCbCr.ConvertAsWritten | app/app/src/main/rs/yuv2rgb.rs:21-28 | as written, every channel is a byte and alpha is opaque |
| YCbCr.Convert | app/app/src/main/rs/yuv2rgb.rs:21-28 | with rounding division every channel is a byte and alpha is opaque |
| YCbCr.RoundedTerm | app/app/src/main/rs/yuv2rgb.rs:22-24 | the offset is the fixed-point term over 1024 rounded to the nearest integer |
| YCbCr.ConvertRounds | app/app/src/main/rs/yuv2rgb.rs:21-27 | unless clamped, each channel is the nearest integer to the fixed-point JPEG equation |
| YCbCr.RedCloseToStandard | app/app/src/main/rs/yuv2rgb.rs:22 | the red offset is within 0.55 of 1.402 times the centred Cr for every chroma byte |
| YCbCr.TruncationBiasAsWritten | app/app/src/main/rs/yuv2rgb.rs:22 | for Y = 100 and centred Cr = -1 the code as written gives red 100, while the nearest value to the equation is 99 |
| YCbCr.TruncatedTermWithinOne | app/app/src/main/rs/yuv2rgb.rs:22-24 | truncating `(512 + t) / 1024` never gives less than the rounded term and at most one more, and the two agree when `512 + t` is not negative |
| YCbCr.AsWrittenWithinOne | app/app/src/main/rs/yuv2rgb.rs:21-28 | each channel as written is the corrected channel or one more, and they agree wherever the term before division is not negative |
| YCbCr.NeutralChromaIsGrey | app/app/src/main/rs/yuv2rgb.rs:21-28 | neutral chroma gives the grey of the luma, both as written and corrected |
| YCbCr.SampleAt | app/app/src/main/rs/yuv2rgb.rs:18-20 | a pixel reads a luma byte and two chroma values centred on zero, each in `[-128, 128)` |
| YCbCr.Kernel | app/app/src/main/rs/yuv2rgb.rs:16-29 | the kernel with the rounding corrected gives an opaque pixel; its channels relate to the kernel as written by `YCbCr.KernelAsWrittenWithinOne` |
| YCbCr.KernelAsWritten | app/app/src/main/rs/yuv2rgb.rs:16-29 | the kernel as written gives an opaque pixel |
| YCbCr.KernelAsWrittenWithinOne | app/app/src/main/rs/yuv2rgb.rs:16-29 | each channel of the kernel as written is the corrected kernel's or one more |
| YCbCr.BlockSharesChroma | app/app/src/main/rs/yuv2rgb.rs:19-20 | the four pixels of a 2x2 block read the same chroma sample |
| YCbCr.SourceMapsInvert | app/app/src/main/rs/yuv2rgb.rs:31-44 | the 180 degree source map is its own inverse, and the 90 and 270 degree maps undo each other |
| YCbCr.Kernel180 | app/app/src/main/rs/yuv2rgb.rs:31-34 | output pixel `(x, y)` of the 180 degree kernel is the plain kernel, as written or corrected, at `(Width - 1 - x, Height - 1 - y)` |
| YCbCr.Kernel90 | app/app/src/main/rs/yuv2rgb.rs:36-39 | output pixel `(x, y)` of the 90 degree kernel is the plain kernel at `(y, Width - x - 1)` |
| YCbCr.Kernel270 | app/app/src/main/rs/yuv2rgb.rs:41-44 | output pixel `(x, y)` of the 270 degree kernel is the plain kernel at `(Height - 1 - y, x)` |
| YCbCr.EverySourcePixelShown | app/app/src/main/rs/yuv2rgb.rs:31-44 | every pixel of the source frame shows up in each rotated output, at the mirrored or quarter-turned point, for the kernel as written and corrected alike |
| YCbCr.RotatedTruncationBiasAsWritten | app/app/src/main/rs/yuv2rgb.rs:31-44 | the rotated kernels as written inherit the bias: a one-pixel frame with Y = 100 and Cr = 127 gives red 100 from every rotation, where the corrected kernels give 99 |
| Multipart.Delimiter | app/app/src/main/java/com/octo4a/camera/MJpegServer.kt:56 | the delimiter line of a boundary is two hyphens followed by the boundary itself |
| Multipart.ReadSectionOfSection | app/app/src/main/java/com/octo4a/camera/MJpegServer.kt:61-66 | a reader that parses the part headers and its Content-Length gets back exactly the frame, and the bytes after the part untouched |
| Multipart.ReadSectionsOfSections | app/app/src/main/java/com/octo4a/camera/MJpegServer.kt:58-68 | a run of parts reads back as exactly its frames, in order |
| Multipart.ReadBodyOfBody | app/app/src/main/java/com/octo4a/camera/MJpegServer.kt:56-68 | an opening delimiter line followed by parts, with the delimiter taken from the boundary, reads back as exactly the frames |
| Multipart.BoundaryAsDelimiterUnreadable | app/app/src/main/java/com/octo4a/camera/MjpegResponse.kt:9 | when the boundary itself is written as the delimiter line, a reader that derives the delimiter from the boundary finds no body, whatever the frames |
| Streaming.PassesWrite | app/app/src/main/java/com/octo4a/camera/MJpegServer.kt:58-68 | the frame loop writes one part per non-empty frame, in order, and never touches the listener |
| Streaming.EmptyFrameWritesNothing | app/app/src/main/java/com/octo4a/camera/MJpegServer.kt:60 | a pass over an empty newest frame adds nothing to the stream |
| MjpegServer.Serve | app/app/src/main/java/com/octo4a/camera/MJpegServer.kt:31-92 | `/snapshot` and `/mjpeg` are routed exactly when the URI is that path; the snapshot is a chunked JPEG, the stream a chunked multipart response with the no-cache and close headers, and anything else, including a missing session, gets the fixed-length `text/html` index page that lists the two routes |
| MjpegServer.SnapshotBody | app/app/src/main/java/com/octo4a/camera/MJpegServer.kt:37-46 | the snapshot route sends the snapshot's bytes, or nothing when taking it failed (a response that then never ends, since the pipe stays open) |
| MjpegServer.StreamWritten | app/app/src/main/java/com/octo4a/camera/MJpegServer.kt:54-68 | the stream, once past its opening line, is a multipart body of the declared boundary with one part per non-empty frame |
| MjpegServer.StreamReadsBack | app/app/src/main/java/com/octo4a/camera/MJpegServer.kt:54-80 | a reader taking the delimiter from the declared Content-Type gets back exactly the non-empty frames the loop saw, in order |
| MjpegServer.ListenerCalls | app/app/src/main/java/com/octo4a/camera/MJpegServer.kt:54-75 | the listener is registered once, right after the opening line and before any frame, and unregistered once when the stream fails; a failure on the opening line unregisters a listener that was never registered |
| MjpegResponse.HeaderBlockShape | app/app/src/main/java/com/octo4a/camera/MjpegResponse.kt:18-25 | the header block opens with the status line and ends with the declared media type right before the blank line |
| MjpegResponse.TraceBody | app/app/src/main/java/com/octo4a/camera/MjpegResponse.kt:25-40 | after the header block come the opening delimiter line and one part per non-empty frame: a multipart body |
| MjpegResponse.AsWrittenUnreadable | app/app/src/main/java/com/octo4a/camera/MjpegResponse.kt:9-40 | as written, the declared boundary `--octo4a` does not match the delimiter `--octo4a` written, so a conforming reader finds no part whatever the frames |
| MjpegResponse.SendReadsBack | app/app/src/main/java/com/octo4a/camera/MjpegResponse.kt:9-40 | with the boundary declared as `octo4a`, the body after the header block reads back as exactly the non-empty frames, in order |
| MjpegResponse.ListenerBalanced | app/app/src/main/java/com/octo4a/camera/MjpegResponse.kt:14-51 | the listener is registered once before anything is written and, when sending fails, unregistered once after the stream is closed |
| FlutterMjpeg.WhileRunning | app/android/app/src/main/kotlin/io/feelfreelinux/octo4a/octo4a/MJpegServer.kt:30 | a `while (running)` loop handles a prefix of its inputs, all with the flag set, and stops at the first clear flag |
| FlutterMjpeg.StopIsFinal | app/android/app/src/main/kotlin/io/feelfreelinux/octo4a/octo4a/MJpegServer.kt:17-20 | once the flag is seen clear, nothing after it is handled |
| FlutterMjpeg.AllWhileRunning | app/android/app/src/main/kotlin/io/feelfreelinux/octo4a/octo4a/MJpegServer.kt:30 | while the flag stays set, every input is handled |
| FlutterMjpeg.AfterStop | app/android/app/src/main/kotlin/io/feelfreelinux/octo4a/octo4a/MJpegServer.kt:17-20 | rounds after a stop are never handled |
| FlutterMjpeg.HeaderShape | app/android/app/src/main/kotlin/io/feelfreelinux/octo4a/octo4a/MJpegServer.kt:39-47 | the response head opens with the HTTP/1.0 status line and ends with the multipart media type of the boundary right before the blank line |
| FlutterMjpeg.PreambleSplit | app/android/app/src/main/kotlin/io/feelfreelinux/octo4a/octo4a/MJpegServer.kt:39-48 | the first write is the header block followed by the opening delimiter line of the declared boundary |
| FlutterMjpeg.WriteParts | app/android/app/src/main/kotlin/io/feelfreelinux/octo4a/octo4a/MJpegServer.kt:51-59 | the loop writes exactly the parts of the frames it saw while the flag was set |
| FlutterMjpeg.ConsumedPrefix | app/android/app/src/main/kotlin/io/feelfreelinux/octo4a/octo4a/MJpegServer.kt:51 | the loop's inputs handled are exactly the prefix before the first clear flag |
| FlutterMjpeg.ClientReadsBack | app/android/app/src/main/kotlin/io/feelfreelinux/octo4a/octo4a/MJpegServer.kt:39-59 | after the header block, a conforming reader gets back exactly the frames the loop saw, in order |
| FlutterMjpeg.EmptyFrameSent | app/android/app/src/main/kotlin/io/feelfreelinux/octo4a/octo4a/MJpegServer.kt:52-58 | unlike the app's servers, an empty frame is sent as a part of its own and reads back as an empty frame |
| FlutterMjpeg.RoundActions | app/android/app/src/main/kotlin/io/feelfreelinux/octo4a/octo4a/MJpegServer.kt:31-81 | a round starts a client thread exactly when `accept` returns a socket, rebinds exactly when the socket left its port, and logs exactly on an I/O failure or a failed rebind; a timeout on the right port does nothing |
| FlutterMjpeg.RoundsIgnoreOutcomes | app/android/app/src/main/kotlin/io/feelfreelinux/octo4a/octo4a/MJpegServer.kt:30-82 | how many rounds run depends only on the flag, never on what `accept` returned |
| FlutterMjpeg.TimeoutSwallowed | app/android/app/src/main/kotlin/io/feelfreelinux/octo4a/octo4a/MJpegServer.kt:66-67 | a timed-out round on the right port contributes nothing and the loop carries on |

## Left out

- Text.StrLe: compares Unicode scalar values, while Kotlin's `compareTo` compares UTF-16 code units; the two orders differ only between a character above U+FFFF and one in U+E000 to U+FFFF, and the strings compared (ISO 8601 release dates and IP addresses) are ASCII.
- The JNI and JVM glue of `vsp-pty.cpp` (thread attach, weak references, method lookup, object construction) is foreign runtime code. The `select` loop is modelled as one iteration; the symlink and read system calls are parameters.
- The real `dlsym`, `open` and `write` in `ioctl-hook.c` are foreign calls; they are parameters, and the FIFO writes are trace entries.
- Threads, coroutines, pipes, locks and timers are not modelled: the extension runner threads, the MJPEG client threads, the `/mjpeg` coroutine and the listener-count synchronisation. A thread's end is a separate step, or a loop is given the values its condition observes.
- Sockets, NanoHTTPD sessions and the `ServerSocket` are not modelled; responses are their status, headers and written bytes. The `Date` header is a parameter.
- Process execution (`ProcessBuilder.start`, reading output) is not modelled: commands are the process descriptions they would start, and their output is a parameter.
- File system effects (zip extraction, rename, chmod, symlink creation, deletion) are trace entries or parameters. Path canonicalisation is a parameter of `deleteFolder`.
- BootstrapUtils.Unpack: lists the operations of the archive loop, in the order the source makes them, and stops only at a malformed SYMLINKS.txt line; the failures of the URL open, `ensureDirectoryExists`, the file write, `Os.chmod` and `Os.symlink` are given as `IoFaults` and applied by `BootstrapUtils.SetupBootstrap`.
- BootstrapUtils.SetupBootstrap: a failure to read the zip stream itself (`nextEntry` or `read` throwing) is folded into the write failure of the entry's file or not modelled; the archive's entries are given.
- DocumentProvider.QuerySearchDocuments: the file tree is a finite datatype, so a symbolic-link cycle inside home, which the source would walk again and again until 50 results exist (or without end when nothing in it matches), cannot be expressed.
- Installation.NewestFirst: the `GithubRelease` class of `GithubRepository.kt` does not declare the `name`, `publishedAt` and `prerelease` fields the view model reads; they are taken here from the GitHub releases API, where `published_at` is ISO 8601 text, so the sort compares strings, and `Installation.NewerOrSamePreorder` rests on that reading.
- JSON, YAML and Gson parsing (extension manifests, settings, `config.yaml`) are library calls. Settings are records, and parsed manifests are `Option`s.
- The byte formats of tar, ar and xz are parameters of `DpkgReplacer`; the copy, header-write and data-write failures of the ar loop are given per member as `ArFaults`, and the wrapped Go error is not carried in the messages. `WriteGlobalHeader`'s own error, which the source ignores, is not modelled.
- Kotlin `Int`/`Long` and C `int` overflow is not modelled outside `SemVer.DecimalToInt`, `Platform.IsBitSet` and the `ioctl` request patterns: offsets such as `idUV` in `yuv2rgb.cpp`, the buffer sizes of `RotateUtils.kt` and the byte total of `ProgressTrackingInputStream.kt` are unbounded integers here.
- Unicode case folding and whitespace are ASCII-only: `lowercase()` in `getMimeType` and the document search, and `isBlank()` in the driver settings.
- The one floating-point value, `roundToInt` of a progress, is exactly `25 * value`, so integers stand for it.
- `stopOctoPrint`, `resetSSHPassword`, `startSSH`, `stopSSH`, `usbAttached`, `insertInitialConfig`, `getConfig` and `saveConfig` of `OctoPrintHandlerRepository.kt` are not modelled. Each only starts processes or reads and writes files.
- `ensureHomeDirectory` of `BootstrapRepository.kt` is not modelled: its body is commented out. `isSSHConfigured` and `isBootstrapInstalled` are file-existence tests and are parameters.
- Camera capture, `YuvConverter.kt` and RenderScript allocations are not modelled; the kernels are functions of the planes.
- YCbCr.KernelAsWritten: states only that the pixel is opaque. How its channels relate to the corrected kernel is stated by `YCbCr.KernelAsWrittenWithinOne`.
- YCbCr.ConvertAsWritten: states only that the channels are bytes and alpha is opaque. How far the truncating division departs from the corrected conversion is stated by `YCbCr.AsWrittenWithinOne`, and one input where it departs is given by `YCbCr.TruncationBiasAsWritten`.
- CommFix.RunHooks: states only that the earlier candidates stay in front. What each hook adds is stated per hook by `CommFix.HookResultAppended` and `CommFix.FailingHookSkipped`.

## Findings

| source | as written | input that shows it | evidently intended | confidence | as-written member | corrected member |
|---|---|---|---|---|---|---|
| app/app/src/main/jni/vsp-pty.cpp:160-164 | the result of `openpty` is ignored, and the slave name is symlinked as the serial pipe anyway | `/dev/ptmx` cannot be opened | check the result, and publish the link only when `openpty` succeeded | not executed | `VspPty.StartupAsWritten`, `VspPty.StartupAsWrittenPublishesGarbage` | `VspPty.Startup` |
| app/app/src/main/java/com/octo4a/utils/SemVer.kt:29 | the identifier class `[0-9A-z-]` spans `A` to `z`, so it also admits `[`, `\`, `]`, `^`, `_` and the backquote | `"1.0.0-a_b"` parses | `[0-9A-Za-z-]`, as section 9 of Semantic Versioning 2.0.0 requires | not executed | `SemVer.UnderscoreAccepted` | `SemVer.IntendedIdentifiers` |
| app/app/src/main/java/com/octo4a/octoprint/BootstrapUtils.kt:40 | the architecture-dependent archive address is overwritten by a fixed address of the aarch64 archive | `os.arch` = `"armv7l"` | keep the address computed for the architecture | not executed | `BootstrapUtils.DownloadUrlAsWritten`, `BootstrapUtils.ArmGetsAarch64Archive` | `BootstrapUtils.DownloadUrl` |
| scripts/comm-fix.py:69-74 | the `/dev` scan calls the undefined `regex_serial_devices`; the `NameError` is caught, so no device is ever listed | `/dev` holds `ttyACM0` | test each name against the serial-device pattern | not executed | `CommFix.DevScanAsWrittenIsEmpty`, `CommFix.TtyAcmLostAsWritten`, `CommFix.NoDevicesAsWritten` | `CommFix.PatchedSerialListWith` |
| scripts/comm-fix.py:53-64 | the Windows branch calls `winreg.OpenKey`, but `winreg` is never imported (lines 1-45); the `NameError` is caught, so no registry port is ever listed | Windows with `COM3` registered under `SERIALCOMM` | import `winreg` and list the registry values | not executed | `CommFix.PatchedSerialListAsWritten`, `CommFix.NoRegistryPortsAsWritten` | `CommFix.PatchedSerialListWith` |
| app/app/src/main/rs/yuv2rgb.rs:22-24 | `+ 512` before a C division by 1024 rounds positive terms to nearest, but truncates negative terms toward zero | Y = 100, Cr = 127 (centred -1): red is 100, not 99 | rounding to the nearest integer, by floor division | not executed | `YCbCr.TruncationBiasAsWritten`, `YCbCr.RotatedTruncationBiasAsWritten` | `YCbCr.ConvertRounds` |
| app/app/src/main/java/com/octo4a/camera/MjpegResponse.kt:9 | the declared boundary is `--octo4a`, while the delimiter written is `--octo4a` itself, not `----octo4a` as section 5.1.1 of RFC 2046 derives | any frames | declare `boundary=octo4a` | not executed | `MjpegResponse.AsWrittenUnreadable` | `MjpegResponse.SendReadsBack` |
