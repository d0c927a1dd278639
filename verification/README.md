# The SIF Reference Installer, in Dafny

This project models the Reference Installer of the software installation framework: the
binary package format and its extractor, the parser of text packages, the Install,
Uninstall, GetComponentInfo and Activate/Deactivate tasks over the component registry and
the transactional file system, the plug-in that passes requests to the installer's server,
and the command line of the reference application manager. It proves what the parts
promise each other and what whole runs and whole histories promise the user.

`dafny verify dfyconfig.toml` checks everything.

## How it is built

Code that computes is a function; code that changes things is a class or a method with a
loop, proved against a function; laws about the functions are lemmas.

| file | contents |
|---|---|
| Platform.dfy | error codes, leaves and panics, little-endian integers, case folding |
| BinFormat.dfy | the grammar of compound packages; it is unambiguous |
| Unpack.dfy | one package: what extraction reads and writes; complete and sound |
| PkgTree.dfy | the recursion over embedded packages and its flat list; complete, sound, bounded |
| PkgPaths.dfy | no two extracted files get in each other's way |
| PkgRoundTrip.dfy, PkgLayout.dfy | from a package author's tree to bytes and back; where its files go, path by path |
| ExtractRefusals.dfy | why a package file is refused |
| AuxNodes.dfy, Extractor.dfy | the list nodes, and the extractor as it runs on files and sessions |
| InfoTree.dfy | from the flat list back to a tree of component information |
| PkgText.dfy, PkgTextLaws.dfy, TextRefusals.dfy, PkgParser.dfy | text packages: meaning, laws, why they are refused, and the parser as it runs |
| Registry.dfy, Orders.dfy | components, version comparison, the search for what a package would replace, and orders of identifiers |
| InstallModel.dfy | the Install task as a state machine, one transition per execution |
| InstallSpec.dfy | what an installation amounts to, said without steps |
| InstallRuns.dfy | the state machine refines that, with the exact number of executions |
| InstallSafety.dfy | the invariant of every run; foreign first; all or nothing |
| InstallLaws.dfy | no downgrade; what a finished installation has done; install then uninstall |
| EndToEnd.dfy, Witness.dfy | from written records and trees of them to registered components, and a first package that takes this way |
| UninstallModel.dfy | the Uninstall and Activate/Deactivate tasks |
| Activation.dfy | whether a component is active, after one request and after a history |
| History.dfy, Names.dfy, Versions.dfy | histories of requests: registry and disk agree; one version at a time; through which versions a component goes |
| Counterexamples.dfy | runs in which a promised property fails |
| Sessions.dfy, InstallTask.dfy, UninstallTask.dfy, InfoTask.dfy, InfoLaws.dfy | the tasks as objects, on sessions of a device, and whole requests |
| Plugin.dfy | the plug-in's active object: each request is completed exactly once |
| CommandLine.dfy | grouping arguments into options |

An open transaction is a shadow of the device: it shows its own changes, `Commit` publishes
them, and a task that is gone rolls back. A fault is a leave with its error code, or a panic
where the source indexes a descriptor out of range. A nested installation of a foreign
package is a status and an arbitrary effect on the device; a run may be cut short after any
number of executions.

## What turned out

- At most one component per name and vendor is not kept in general. The registry filters by
  name and vendor in any language (swcomponentregistry/source/server/scrrequestimpl.cpp,
  lines 2644 to 2716, below installationservices), while a package is looked up in the device
  language, so a package can replace a component that merely has the name in another
  language. `Counterexamples.NameTwice` gets there from a new device in four installations.
  For a package that lists the device language and is newer than what is offered,
  `Names.KeptInEveryOrder` says from the state before exactly when the property is kept.
- Versions are not totally ordered, and a downgrade is reachable. `CompareVersionsL` does not
  look at the build number of versions that differ, and the number -1 ends a version. As long
  as the major number is not -1 the comparison is the order of major and minor, other negative
  numbers included (`Registry.CompareIsLexicographic`); a version with a major number of -1,
  which the parser accepts, never has a place in the order (`Registry.RankedExactly`). Through
  any such version, accepted updates lead from -2.0 down to -3.50, after which -2.0 installs
  again (`Counterexamples.VersionFalls`). What always holds is that each update is newer to
  the comparison than what it replaces (`Versions.VersionsClimb`); versions rise exactly where
  the comparison is transitive (`Versions.VersionsRise`, `Counterexamples.RisesExactly`).
- A component of a compound package can replace another component of the same package, the
  root included, and then the identifier that the client is told is that of nothing
  (`Counterexamples.ReportedIsGone`). A package of a list is missing at the end exactly if a
  later one of the list is newer and finds it first (`InstallLaws.RegistersAll`); with names
  kept apart, exactly if a later one is newer (`Names.RegisteredExactly`).
- Two lines of a text package with different tags can change places unless both are faulty;
  then the order decides which fault is reported (`PkgTextLaws.SwapLines`, with an input in
  `PkgTextLaws.FaultsDiffer`).
- For a compound package the identifier reported is the root's (sifrefinstallertask.cpp,
  line 759), not that of the last or most deeply embedded component as
  sifrefinstallerclient.h says in its comments; the model follows the code.
- The footer is 36 bytes long, as the code has it, not 45 as the comment of makebinpkg.pl says.
- A negative number of components counts as none, a negative size that is a multiple of the
  buffer length makes an empty file, bytes after the footer play no part, and values before
  the first option of a command line are lost: all modelled as the code has them.
- The description of a file that is in the way is the bare path: the second Copy overwrites
  the introductory text (sifrefinstallertask.cpp, lines 809 to 813).

## Model

| member | source | states |
|---|---|---|
| Platform.Le32RoundTrip | installationservices/refswinstallationplugin/source/sifrefbinpkgextractor.cpp:42-47 | an integer written as four little-endian two's complement bytes is what the or-ed shifts read back |
| Platform.FromLe32RoundTrip | installationservices/refswinstallationplugin/source/sifrefbinpkgextractor.cpp:42-47 | any four bytes denote a 32-bit integer, and that integer has no other four bytes |
| Platform.FoldMeans | installationservices/swtransactionservices/source/server/integrityservices.cpp:169-176 | two names are the same file exactly if they differ in nothing but the case of letters |
| BinFormat.ItemsFit | installationservices/refswinstallationplugin/source/sifrefbinpkgextractor.cpp:140-190 | an embedded file is at least 8 bytes shorter than the run of items it stands in, which bounds the nesting |
| BinFormat.ItemsUnique | installationservices/refswinstallationplugin/source/sifrefbinpkgextractor.cpp:140-190 | a run of items followed by anything is read in one way only: equal bytes, equal items |
| BinFormat.WireUnique | installationservices/refswinstallationplugin/sample/makebinpkg.pl:54-101 | the format is unambiguous: if two well-formed packages followed by any bytes are equal as bytes, the packages and what follows are equal |
| Unpack.ExtractGrows | installationservices/refswinstallationplugin/source/sifrefbinpkgextractor.cpp:77-206 | extraction loses no file that was there, and every file it reports is in place and strictly shorter than the package |
| Unpack.UnpackItemsBack | installationservices/refswinstallationplugin/source/sifrefbinpkgextractor.cpp:140-190 | well-formed items are written out as exactly their files, in order; only a path that is taken stops it |
| Unpack.ExtractComplete | installationservices/refswinstallationplugin/source/sifrefbinpkgextractor.cpp:77-206 | data that starts with a well-formed package is accepted and yields exactly that package's files, whatever follows the footer, unless a path is taken |
| Unpack.UnpackItemsSound | installationservices/refswinstallationplugin/source/sifrefbinpkgextractor.cpp:140-190 | if items were read without reaching the end of the file, the bytes read are a well-formed run of that many items |
| Unpack.ExtractSound | installationservices/refswinstallationplugin/source/sifrefbinpkgextractor.cpp:79-203 | whatever is accepted starts with a well-formed package, since a short read anywhere makes the footer comparison fail; negative counts and chunk-multiple negative sizes included |
| PkgTree.BuildComplete | installationservices/refswinstallationplugin/source/sifrefbinpkgextractor.cpp:359-414 | a file that holds a tree of packages is unpacked into exactly the files of the tree and its pre-order list with parents and foreign marks, unless two files collide |
| PkgTree.BuildSound | installationservices/refswinstallationplugin/source/sifrefbinpkgextractor.cpp:359-414 | every accepted file holds a tree of well-formed packages that accounts for all that was unpacked |
| PkgTree.ListBound | installationservices/refswinstallationplugin/source/sifrefbinpkgextractor.cpp:139-203 | the list of an accepted file of n bytes has at most n/8 + 1 nodes |
| PkgTree.ListShape | installationservices/refswinstallationplugin/source/sifrefbinpkgextractor.cpp:379-405 | the list of an accepted file starts with its only root, a reference package; every other node comes after its parent, which is a reference package |
| PkgTree.CreateAllContent | installationservices/swtransactionservices/source/server/integrityservices.cpp:265-274 | files created one after the other all keep their own contents, and nothing that was there changes |
| PkgPaths.RefItemName | installationservices/refswinstallationplugin/source/sifrefpkgrec.cpp:52-67 | an embedded file is unpacked further only if its own name ends in the package extension in either case |
| PkgPaths.TreeApart | installationservices/refswinstallationplugin/source/sifrefbinpkgextractor.cpp:49-60 | with non-empty, separator-free sibling names that differ under case folding, no two files of the whole nested tree have the same path and none is a directory of another |
| PkgPaths.ApartCreates | installationservices/swtransactionservices/source/server/integrityservices.cpp:265-274 | files whose paths are apart, and not taken, can all be created |
| PkgPaths.BuildGoodTree | installationservices/refswinstallationplugin/source/sifrefbinpkgextractor.cpp:359-414 | a tree with good names is built exactly if none of its own paths is taken, whatever else the directory holds: each file once with its own bytes, and the pre-order list; otherwise the fault is KErrAlreadyExists |
| PkgRoundTrip.RefName | installationservices/refswinstallationplugin/source/sifrefpkgrec.cpp:52-67 | the recognizer decides by the last name of a path alone |
| PkgRoundTrip.PackFits | installationservices/refswinstallationplugin/sample/makebinpkg.pl:54-101 | the encoding of an author's tree within the limits is a coherent tree of packages, nested packages included |
| PkgRoundTrip.PackageRoundTrip | installationservices/refswinstallationplugin/source/sifrefbinpkgextractor.cpp:77-206 | encoding any tree within the limits and building it gives exactly its pre-order list and byte-identical files, with any bytes after the footer, exactly if none of its own paths is taken |
| PkgLayout.TextPackageName | installationservices/refswinstallationplugin/source/sifrefbinpkgextractor.cpp:49-60 | the text package of a compound package has its name with the extension .sifrefpkg in place of its own, in the given directory |
| PkgLayout.PlainName | installationservices/refswinstallationplugin/source/sifrefbinpkgextractor.cpp:49-60 | a name without an extension gets one |
| PkgLayout.KidName | installationservices/refswinstallationplugin/source/sifrefbinpkgextractor.cpp:150-160 | a component is unpacked into children, in a directory of its own name |
| PkgLayout.LaidOut | installationservices/refswinstallationplugin/source/sifrefbinpkgextractor.cpp:359-414 | the files and the list of a tree, path by path in plain strings: each text under its package's name, each component in its own directory, each nested package below it |
| PkgLayout.RoundTripLaidOut | installationservices/refswinstallationplugin/source/sifrefbinpkgextractor.cpp:77-206 | encoding a tree and building it writes exactly those files with their contents and nothing else, lists exactly those nodes, and succeeds exactly if none of the paths is taken |
| ExtractRefusals.WrongHeader | installationservices/refswinstallationplugin/source/sifrefbinpkgextractor.cpp:79-101 | a file under 76 bytes, or without the header, is refused with KErrCorrupt |
| ExtractRefusals.WrongTextLength | installationservices/refswinstallationplugin/source/sifrefbinpkgextractor.cpp:103-124 | a text length over 16380 is refused with KErrCorrupt; a negative one with KErrArgument once the text package has been created |
| ExtractRefusals.AfterText | installationservices/refswinstallationplugin/source/sifrefbinpkgextractor.cpp:103-124 | after the header and a text, a taken path of the text package refuses the file, and otherwise the rest decides |
| ExtractRefusals.WrongCount | installationservices/refswinstallationplugin/source/sifrefbinpkgextractor.cpp:126-131 | more than sixteen components are refused with KErrCorrupt; too few bytes for their number panic |
| ExtractRefusals.WrongFooter | installationservices/refswinstallationplugin/source/sifrefbinpkgextractor.cpp:196-203 | after well-formed components, anything else than the footer is refused with KErrCorrupt |
| ExtractRefusals.BadComponent | installationservices/refswinstallationplugin/source/sifrefbinpkgextractor.cpp:139-190 | after any number of well-formed components, the fault of the next one is the fault of the file |
| ExtractRefusals.WrongNameLength | installationservices/refswinstallationplugin/source/sifrefbinpkgextractor.cpp:141-150 | a name length over 256 is refused with KErrCorrupt, a negative one with KErrArgument |
| ExtractRefusals.WrongSize | installationservices/refswinstallationplugin/source/sifrefbinpkgextractor.cpp:161-184 | a size over 0xFFFFFF is refused with KErrCorrupt before anything is created, then a taken path with KErrAlreadyExists, then a negative size that is no multiple of 16380 with KErrArgument |
| ExtractRefusals.NotAPackage | installationservices/refswinstallationplugin/source/sifrefbinpkgextractor.cpp:390-405 | a file without the extension is refused as a request with KErrCorrupt, and is a foreign leaf of the list inside a package |
| ExtractRefusals.PackageNames | installationservices/refswinstallationplugin/source/sifrefpkgrec.cpp:52-67 | a path is that of a reference package exactly if it ends in .sifrefbinpkg in either case |
| PkgRoundTrip.EncodeInjective | installationservices/refswinstallationplugin/sample/makebinpkg.pl:54-101 | the encoding determines the author's tree, nested packages included: equal bytes, equal trees |
| Extractor.NegativeRemainder | installationservices/refswinstallationplugin/source/sifrefbinpkgextractor.cpp:174-182 | in truncating arithmetic a negative size makes no whole chunk, and a remainder of zero exactly for multiples of the buffer length |
| Extractor.RFile.Read | installationservices/refswinstallationplugin/source/sifrefbinpkgextractor.cpp:92-93 | a read past the end is short without an error, and a negative length is refused; the position moves by what was read |
| Extractor.StsSession.CreateTemporaryL | installationservices/swtransactionservices/source/server/integrityservices.cpp:265-274 | creating a temporary file fails, and changes nothing, exactly when its folded path is taken |
| Extractor.ReadInt32L | installationservices/refswinstallationplugin/source/sifrefbinpkgextractor.cpp:42-47 | four bytes are read as an integer; a short read is an out-of-range index |
| Extractor.CopyContent | installationservices/refswinstallationplugin/source/sifrefbinpkgextractor.cpp:173-184 | the chunk loop and the remainder together write exactly the body that the size denotes, up to the end of the file, or leave for a negative remainder |
| Extractor.ExtractComponent | installationservices/refswinstallationplugin/source/sifrefbinpkgextractor.cpp:142-190 | one turn of the loop unpacks one item: name, size, file and position as the specification says, or the same fault |
| Extractor.ExtractComponents | installationservices/refswinstallationplugin/source/sifrefbinpkgextractor.cpp:139-190 | the loop unpacks as many items as the count says, none for a negative one, and lists their paths in order |
| Extractor.ExtractBinPkgFileL | installationservices/refswinstallationplugin/source/sifrefbinpkgextractor.cpp:77-206 | the method leaves exactly the files, list of paths, position and fault that the specification Extract gives |
| Extractor.BuildPkgTreeImplL | installationservices/refswinstallationplugin/source/sifrefbinpkgextractor.cpp:359-414 | the recursion appends to the shared list objects whose parent pointers show the specified list, and leaves the specified files or fault |
| Extractor.BuildEmbedded | installationservices/refswinstallationplugin/source/sifrefbinpkgextractor.cpp:383-388 | the loop over the embedded files builds them one after the other, each below the given parent |
| Extractor.BuildPkgTreeL | installationservices/refswinstallationplugin/source/sifrefbinpkgextractor.cpp:416-424 | from the bytes of a package to distinct, fresh, empty list nodes that form a tree below the first, with the specified files or fault |
| AuxNodes.AuxNode.SetNodeL | installationservices/refswinstallationplugin/source/sifrefbinpkgextractor.cpp:312-319 | a node can be set once; a second one is refused and the first kept |
| AuxNodes.AuxNode.SetCompInfoL | installationservices/refswinstallationplugin/source/sifrefbinpkgextractor.cpp:321-328 | component information can be set once; a second one is refused and the first kept |
| AuxNodes.AuxNode.RegisterChildToParentL | installationservices/refswinstallationplugin/source/sifrefbinpkgextractor.cpp:330-345 | what the child holds becomes the last child of the parent's node and is no longer the child's; a null parent node would be a null dereference |
| AuxNodes.AuxNode.SetAsRootNodeL | installationservices/refswinstallationplugin/source/sifrefbinpkgextractor.cpp:347-355 | the node is handed out once; without one it leaves |
| InfoTree.ProcessSplit | installationservices/refswinstallationplugin/source/sifrefinstallertask.cpp:398-401 | the backward walk over a range is the walk over its upper part followed by that over its lower part |
| InfoTree.ProcessTree | installationservices/refswinstallationplugin/source/sifrefinstallertask.cpp:398-401 | walking back over the run of one subtree gathers the whole subtree in its first node and empties the others |
| InfoTree.ProcessForest | installationservices/refswinstallationplugin/source/sifrefinstallertask.cpp:398-401 | walking back over the runs of sibling subtrees hands each of them to the parent, last one first |
| InfoTree.ProcessWhole | installationservices/refswinstallationplugin/source/sifrefinstallertask.cpp:390-405 | after the walk the root holds the package tree, children in reverse, and no other node holds anything: each was handed over exactly once |
| InfoTree.BuiltShape | installationservices/refswinstallationplugin/source/sifrefbinpkgextractor.cpp:359-414 | the parent positions of any accepted list are those of a tree in pre-order with foreign leaves |
| InfoTree.RegisterAt | installationservices/refswinstallationplugin/source/sifrefinstallertask.cpp:398-401 | one turn of the walk on the objects is one turn of the specified walk |
| InfoTree.SetComponentInfoL | installationservices/refswinstallationplugin/source/sifrefinstallertask.cpp:390-405 | the loop on the list of objects is the specified walk, and the root's node is taken out at the end |
| InfoTree.WalkYieldsTree | installationservices/refswinstallationplugin/source/sifrefinstallertask.cpp:390-405 | on the list of any accepted package whose nodes hold their information, the walk succeeds: no parent node is missing, and the answer is the package tree |
| InfoTasks.ReportIsTree | installationservices/refswinstallationplugin/source/sifrefinstallertask.cpp:235-405 | if every package can be described, the answer to a GetComponentInfo request is the package tree with each reference node's own description |
| InfoLaws.DescribeMeans | installationservices/refswinstallationplugin/source/sifrefinstallertask.cpp:360-390 | what is told about a package: name and vendor in the device language, or in the first one if it is not listed, its version, 1024 bytes for each file, and the status, identifier and state that the matching components give |
| InfoLaws.SlotsMean | installationservices/refswinstallationplugin/source/sifrefinstallertask.cpp:335-390 | each node of the list holds what is told about its own package or the other installer's answer; the first installer that answers with an error gives the fault |
| InfoLaws.TreeReported | installationservices/refswinstallationplugin/source/sifrefinstallertask.cpp:235-405 | the request for a tree of written packages as a whole: the fault of the first foreign package that answers with an error, or the package tree with each package told about by its own record |
| InfoLaws.RootReported | installationservices/refswinstallationplugin/source/sifrefinstallertask.cpp:360-405 | the root of the answer tells about the root package |
| InfoTasks.InfoTask.ExtractEmbeddedPkgsL | installationservices/refswinstallationplugin/source/sifrefinstallertask.cpp:281-306 | after extraction the list shows the package and what is still to come is the whole answer; otherwise its fault is the answer |
| InfoTasks.InfoTask.ParsePkgFileL | installationservices/refswinstallationplugin/source/sifrefinstallertask.cpp:308-342 | a reference package is parsed for the search step, a foreign one asked about, or the parser's fault is the answer |
| InfoTasks.InfoTask.FindComponentL | installationservices/refswinstallationplugin/source/sifrefinstallertask.cpp:48-107 | the search data are those of the specified search, with all array positions in range |
| InfoTasks.InfoTask.CreateComponentInfoNodeL | installationservices/refswinstallationplugin/source/sifrefinstallertask.cpp:344-388 | the node at hand gets what the specification says and the run goes on with the next, or the nested failure is the answer |
| InfoTasks.InfoTask.ExecuteImplL | installationservices/refswinstallationplugin/source/sifrefinstallertask.cpp:235-279 | each execution keeps the answer that is to come; it finishes only with that answer and fails only with its fault |
| InfoTasks.GetComponentInfo | installationservices/refswinstallationplugin/source/sifrefinstallertask.cpp:235-405 | a whole request answers what Report says and changes nothing on the device; an answer takes exactly two executions, two more for each foreign package and three for each reference package |
| PkgText.LanguageIndex | installationservices/refswinstallationplugin/source/sifrefpkgparser.cpp:314-325 | the first position of a language, or -1 exactly when it does not occur |
| PkgText.FindCrlf | installationservices/refswinstallationplugin/source/sifrefpkgparser.cpp:228-230 | the first CRLF, or the length of the text when there is none |
| PkgText.ChosenIndexInRange | installationservices/refswinstallationplugin/source/sifrefinstallertask.cpp:48-65 | for every accepted text and device language the position the tasks use is inside the arrays of names and vendors |
| PkgParser.SplitValuesL | installationservices/refswinstallationplugin/source/sifrefpkgparser.cpp:55-82 | the loop collects exactly the quoted values of the line, or fails for a missing quote or an over-long value |
| PkgParser.PkgParser.ParseComponentVersionL | installationservices/refswinstallationplugin/source/sifrefpkgparser.cpp:84-120 | the version is filled field by field from three numbers in their field's range; a second version, a bad number or a missing separator fails |
| PkgParser.PkgParser.AppendLanguagesL | installationservices/refswinstallationplugin/source/sifrefpkgparser.cpp:269-273 | the loop appends the code of each language in order, or fails at the first unsupported one |
| PkgParser.PkgParser.LineHandlerL | installationservices/refswinstallationplugin/source/sifrefpkgparser.cpp:257-312 | a line changes the part of the record that its tag names and nothing else, or fails as specified |
| PkgParser.PkgParser.ParseL | installationservices/refswinstallationplugin/source/sifrefpkgparser.cpp:208-255 | the loop over lines accepts exactly the texts that the specification accepts, with the same record or fault |
| PkgParser.PkgParser.CheckInvariantL | installationservices/refswinstallationplugin/source/sifrefpkgparser.cpp:327-349 | accepted exactly if there are a version, a language, and a name and a vendor for each language |
| PkgParser.PkgParser.GetLanguageIndex | installationservices/refswinstallationplugin/source/sifrefpkgparser.cpp:314-325 | the loop returns the first position, or KErrNotFound |
| PkgTextLaws.Decompose | installationservices/refswinstallationplugin/source/sifrefpkgparser.cpp:222-312 | handling all lines is the same as five independent walks, one over the lines of each tag, with no unknown tag |
| PkgTextLaws.LineOrder | installationservices/refswinstallationplugin/source/sifrefpkgparser.cpp:222-349 | acceptance and record depend only on the lines of each tag in their order |
| PkgTextLaws.SwapLines | installationservices/refswinstallationplugin/source/sifrefpkgparser.cpp:222-349 | swapping two neighbouring lines with different tags changes nothing in the outcome, record or fault, unless neither can be handled there; then each order reports the fault of the line it puts first |
| PkgTextLaws.FirstFault | installationservices/refswinstallationplugin/source/sifrefpkgparser.cpp:222-349 | the fault of a refused text is that of the first line that fails after the earlier lines of its own tag alone; with no such line only the final check can refuse, with KErrCorrupt |
| PkgTextLaws.FaultsDiffer | installationservices/refswinstallationplugin/source/sifrefpkgparser.cpp:222-312 | two lines whose two orders report KErrCorrupt and KErrUnsupportedLanguage |
| PkgTextLaws.LinesBack | installationservices/refswinstallationplugin/source/sifrefpkgparser.cpp:224-244 | joined lines without line breaks are split into the same lines, empty ones included, with or without a final CRLF |
| PkgTextLaws.SplitQuoted | installationservices/refswinstallationplugin/source/sifrefpkgparser.cpp:55-82 | quoted values of at most 255 bytes without quotes are split into the same values |
| PkgTextLaws.VersionBack | installationservices/refswinstallationplugin/source/sifrefpkgparser.cpp:84-120 | a version written with a sign where needed and a padded minor number is parsed back exactly if its numbers are in range, and refused with KErrOverflow otherwise |
| PkgTextLaws.TextRoundTrip | installationservices/refswinstallationplugin/source/sifrefpkgparser.cpp:208-312 | parsing the written form of any valid record gives that record, with or without a final CRLF |
| TextRefusals.ParseExactly | installationservices/refswinstallationplugin/source/sifrefpkgparser.cpp:222-349 | the lines are accepted as a record exactly if the walks over the lines of each tag give it, its version is not all zero, it has a language, and as many names and vendors; a handled text without these is refused with KErrCorrupt |
| TextRefusals.AcceptedHas | installationservices/refswinstallationplugin/source/sifrefpkgparser.cpp:327-349 | every accepted text has a version that is not all zero, at least one language, and a name and a vendor for each |
| TextRefusals.TagNeeded | installationservices/refswinstallationplugin/source/sifrefpkgparser.cpp:222-349 | a text without a line of languages, names, vendors or version is refused, as is one with a line without a known tag |
| TextRefusals.SecondLine | installationservices/refswinstallationplugin/source/sifrefpkgparser.cpp:257-293 | a second line of languages, names or vendors after one with a value is refused with KErrCorrupt, whatever follows |
| TextRefusals.SecondVersion | installationservices/refswinstallationplugin/source/sifrefpkgparser.cpp:84-97 | so is a second version after one with a number that is not zero |
| TextRefusals.BadValue | installationservices/refswinstallationplugin/source/sifrefpkgparser.cpp:55-82 | a value over 255 characters panics, one without a closing quote is refused with KErrCorrupt, and a line without quotes has no values |
| TextRefusals.CodesMean | installationservices/refswinstallationplugin/source/sifrefpkgparser.cpp:122-152 | the three language codes and their languages; every other code is refused with KErrUnsupportedLanguage |
| TextRefusals.FileTrimmed | installationservices/refswinstallationplugin/source/sifrefpkgparser.cpp:296-306 | a file is registered without the white space on either side of it |
| TextRefusals.VersionRead | installationservices/refswinstallationplugin/source/sifrefpkgparser.cpp:84-120 | white space, three numbers and any two characters between them are a version, whatever follows; out of range it is refused with KErrOverflow |
| TextRefusals.VersionBroken | installationservices/refswinstallationplugin/source/sifrefpkgparser.cpp:84-120 | a version that breaks off after a number panics, and one without a number is refused |
| Registry.CompareIsLexicographic | installationservices/swcomponentregistry/source/client/scrclient.cpp:514-597 | on versions whose major number is not -1 the comparison is the lexicographic order of major and minor, a minor number of -1 counting as 0; the build number plays no part |
| Registry.RankedExactly | installationservices/swcomponentregistry/source/client/scrclient.cpp:514-597 | a version has a place in the order, that is, what is not before it is not before what it is not before, exactly if its major number is not -1; every other one breaks the order between -3.50 and 0.0 |
| Registry.SearchIsMaximum | installationservices/refswinstallationplugin/source/sifrefinstallertask.cpp:80-105 | the loop with its early exit computes the highest status over the rest of the view, and what it names attains it |
| Registry.SearchHighest | installationservices/refswinstallationplugin/source/sifrefinstallertask.cpp:48-107 | the result of the search is the highest status over all matching components, with the identifier and state of one that attains it, or a new component if there is none |
| Registry.SearchFirst | installationservices/refswinstallationplugin/source/sifrefinstallertask.cpp:80-105 | when every component of the view is older, the search names the first of the view |
| Registry.MatchesMean | installationservices/swcomponentregistry/source/server/scrrequestimpl.cpp:2644-2716 | a reference component matches the name and vendor of each of its rows in any language and nothing else; a component of another installer never matches |
| Registry.SearchOrderFree | installationservices/refswinstallationplugin/source/sifrefinstallertask.cpp:78-105 | the status does not depend on the order in which the view lists the components |
| Registry.ViewIsView | installationservices/swcomponentregistry/source/server/scrrequestimpl.cpp:2644-2716 | filtering any enumeration of the components gives a view that lists each match once |
| Registry.FindComponentL | installationservices/refswinstallationplugin/source/sifrefinstallertask.cpp:76-105 | the loop over a view returns the specified result, the highest status |
| InstallRuns.RemoveAllShows | installationservices/swtransactionservices/source/server/integrityservices.cpp:179-252 | removing files one after the other takes exactly their paths out of what the transaction shows |
| InstallRuns.DeleteLoop | installationservices/refswinstallationplugin/source/sifrefinstallertask.cpp:109-134 | each execution takes one file away; after as many executions as files the list is empty and nothing else has changed |
| InstallRuns.CreateShows | installationservices/swtransactionservices/source/server/integrityservices.cpp:169-176 | creating a file fails exactly if its path is visible or temporary, and otherwise adds it and nothing else to what the transaction shows |
| InstallRuns.CopyLoop | installationservices/refswinstallationplugin/source/sifrefinstallertask.cpp:792-848 | from any point of the copying, the remaining files are registered and created and the size adds up, or, exactly if one is in the way, the run leaves |
| InstallRuns.UpgradeStage | installationservices/refswinstallationplugin/source/sifrefinstallertask.cpp:715-728 | in one execution per file and two more, the replaced component is gone from registry and disk with all its files |
| InstallRuns.AddStage | installationservices/refswinstallationplugin/source/sifrefinstallertask.cpp:730-863 | in one execution per file and three more, the component is registered with all its names, version, files and size and set active or not, or the run leaves for the specified reason |
| InstallRuns.OneComponent | installationservices/refswinstallationplugin/source/sifrefinstallertask.cpp:602-863 | the executions for one reference package do to registry and disk what InstallOne says, in exactly the number it says, or leave with its fault |
| InstallRuns.AllComponents | installationservices/refswinstallationplugin/source/sifrefinstallertask.cpp:602-863 | the executions for all reference packages compose to InstallFrom, count and reported identifiers included |
| InstallRuns.ForeignPhase | installationservices/refswinstallationplugin/source/sifrefinstallertask.cpp:623-664 | nested installations are run one after the other, three executions each, until one fails |
| InstallRuns.SortedList | installationservices/refswinstallationplugin/source/sifrefinstallertask.cpp:538-582 | after any sort by the comparator, stable or not, foreign packages come first, at least one reference package is left, and exactly one node is a root |
| InstallRuns.OneId | installationservices/refswinstallationplugin/source/sifrefinstallertask.cpp:758-764 | the identifiers reported over a whole list are exactly one, the root package's |
| InstallRuns.InstallRefined | installationservices/refswinstallationplugin/source/sifrefinstallertask.cpp:458-872 | every run ends, in the state and with the identifiers that Install says; a successful one after exactly 2 + 3F + sum of (files + 5, and old files + 2 for an upgrade) executions, running at every earlier one |
| InstallSafety.NestedKeeps | installationservices/refswinstallationplugin/source/sifrefinstallertask.cpp:602-664 | parsing and nested installations keep the invariant of the run |
| InstallSafety.ReplaceKeeps | installationservices/refswinstallationplugin/source/sifrefinstallertask.cpp:666-728 | searching for and removing the old component keep the invariant of the run |
| InstallSafety.AddKeeps | installationservices/refswinstallationplugin/source/sifrefinstallertask.cpp:730-863 | registering, copying and activating keep the invariant of the run |
| InstallSafety.CommitKeeps | installationservices/refswinstallationplugin/source/sifrefinstallertask.cpp:865-872 | the commit finds both transactions open and publishes exactly what they show |
| InstallSafety.AllFine | installationservices/refswinstallationplugin/source/sifrefinstallertask.cpp:458-536 | the invariant holds in every reachable state of every run |
| InstallSafety.ForeignFirst | installationservices/refswinstallationplugin/source/sifrefinstallertask.cpp:540-582 | an open registry transaction means that no foreign package is left, so no nested installation runs inside it; the position is in range at every step that uses it; the commit finds both transactions open |
| InstallSafety.AllOrNothing | installationservices/refswinstallationplugin/source/sifrefinstallertask.cpp:425-444 | after any number of executions short of the end the device is as exactly the nested installations that have ended left it: while running, those before the current package, all successful; after leaving, those up to and including the first failed one |
| InstallSafety.NothingForeign | installationservices/refswinstallationplugin/source/sifrefinstallertask.cpp:425-444 | without foreign packages an unfinished run leaves the device untouched |
| InstallSafety.TransactionBase | installationservices/refswinstallationplugin/source/sifrefinstallertask.cpp:670-676 | the registry transaction starts from the device that all nested installations left |
| InstallSafety.MeasureDecreases | installationservices/refswinstallationplugin/source/sifrefinstallertask.cpp:458-536 | every execution that does not end the run lessens a lexicographic measure of packages, steps and loop turns left, whose parts are never negative |
| InstallLaws.DoneMeansSuccess | installationservices/refswinstallationplugin/source/sifrefinstallertask.cpp:458-536 | a run is done only where Install says success, with its state and identifiers |
| InstallLaws.SuccessParts | installationservices/refswinstallationplugin/source/sifrefinstallertask.cpp:559-872 | a success is the nested installations followed by the installation of the reference packages on the device they left, with one identifier |
| InstallLaws.NoDowngrade | installationservices/refswinstallationplugin/source/sifrefinstallertask.cpp:666-705 | a package is let through exactly if every installed component of its name and vendor is strictly older; what it then replaces is one of them |
| InstallLaws.LookupMeans | installationservices/refswinstallationplugin/source/sifrefinstallertask.cpp:48-107 | the search goes by the name and vendor in the device language, or in the first language if the package does not list it; a newer match decides before an equal one, an equal one before older ones, and no match means a new component |
| InstallLaws.VerdictMeans | installationservices/refswinstallationplugin/source/sifrefinstallertask.cpp:666-760 | with which error a package is refused, in this order: a newer match, an equal match, the user's no, an empty name, a file in the way of itself, of an extracted file, or of a file of something that is not replaced; else it is let through |
| InstallLaws.InstalledMeans | installationservices/refswinstallationplugin/source/sifrefinstallertask.cpp:715-863 | what letting one package in does: rows, version, files, size and state of the new component, the one component that is gone, and every file that comes, goes or stays |
| InstallLaws.ForeignMeans | installationservices/refswinstallationplugin/source/sifrefinstallertask.cpp:623-664 | nested installations go on while they end without an error; the first that ends with one stops the request with its code |
| InstallLaws.ReplacesFirst | installationservices/refswinstallationplugin/source/sifrefinstallertask.cpp:48-107 | a package that is let through replaces the first component that the registry offers for its name and vendor, and is new exactly if there is none |
| InstallLaws.Survives | installationservices/refswinstallationplugin/source/sifrefinstallertask.cpp:666-863 | an installed component stays as it is, or is gone exactly if some package of the list is a newer version of it and finds it as the first of the components that the registry offers |
| InstallLaws.RegistersAll | installationservices/refswinstallationplugin/source/sifrefinstallertask.cpp:730-863 | every reference package of a finished run is registered under its own identifier with exactly its names, version, files and size; it is gone exactly if a later package of the list is newer and finds it as the first that the registry offers |
| InstallLaws.InstallEffect | installationservices/refswinstallationplugin/source/sifrefinstallertask.cpp:458-872 | a finished installation as a whole: the reported identifier, and of every package and every older component, in both directions, whether it is there at the end |
| InstallLaws.InstallThenUninstall | installationservices/refswinstallationplugin/source/sifrefinstallertask.cpp:730-764 | uninstalling, under the one identifier reported, a new single-component package restores disk and registry, the identifier counter apart |
| EndToEnd.SingleBuilt | installationservices/refswinstallationplugin/source/sifrefbinpkgextractor.cpp:359-414 | a package made of a text alone is unpacked into that text, or refused because its path is taken |
| EndToEnd.WrittenInstalls | installationservices/refswinstallationplugin/source/sifrefinstallertask.cpp:458-872 | from the author's record to the device: installing the encoded, printed record amounts to registering that record, with its exact cost, or to the refusal that the device and the user decide |
| EndToEnd.TreeListed | installationservices/refswinstallationplugin/source/sifrefinstallertask.cpp:559-621 | the list for an encoded tree is a sort of its nodes in pre-order, and parsing each reference package gives what its own text in the tree gives |
| EndToEnd.TreeInstalls | installationservices/refswinstallationplugin/source/sifrefinstallertask.cpp:458-872 | from the author's tree of records to the device: what a successful run reads are the records of the tree, each as often as it stands there; each is registered under the identifier of its position, unless and only if a later package of the tree replaces it; the identifier reported is that of the root's record |
| EndToEnd.TreeOutcome | installationservices/refswinstallationplugin/source/sifrefinstallertask.cpp:458-872 | when the request for a tree of records succeeds, and with which fault it fails: a taken path, else a failed nested installation, else the first record, in the order of the list, that is not let through in the state that those before it have led to |
| Witness.ForeignThenOwnSorts | installationservices/refswinstallationplugin/source/sifrefinstallertask.cpp:538-556 | listing the foreign packages and then the others is a sort by the comparator |
| Witness.RequestLawful | installationservices/refswinstallationplugin/source/sifrefinstallertask.cpp:559-582 | there is a request that meets everything the theorems ask of requests |
| Witness.FirstInstall | installationservices/refswinstallationplugin/source/sifrefinstallertask.cpp:458-872 | on a new device the written package of a one-file record installs: one component with identifier 1, one file, eight executions |
| Sessions.StsTransaction.RemoveL | installationservices/swtransactionservices/source/server/integrityservices.cpp:179-252 | removing an absent file is no error; otherwise the file is out of what the transaction shows |
| Sessions.StsTransaction.CreateNewL | installationservices/swtransactionservices/source/server/integrityservices.cpp:169-176 | creating a file fails, changing nothing, exactly if the path is taken |
| Sessions.StsTransaction.CommitL | installationservices/swtransactionservices/source/server/integrityservices.cpp:297-301 | the commit makes the disk what the transaction shows |
| Sessions.ScrTransaction.AddComponentL | installationservices/swcomponentregistry/source/server/scrrequestimpl.cpp:249-263 | a component gets the next identifier and its names, or is refused for an empty name |
| Sessions.FilesList.NextFileL | installationservices/refswinstallationplugin/source/sifrefinstallertask.cpp:114-121 | the files are handed out in order, each once |
| Sessions.UnregisterAndDeleteFileL | installationservices/refswinstallationplugin/source/sifrefinstallertask.cpp:109-134 | one call removes the next file, or the component when no file is left |
| InstallTasks.ListNodes | installationservices/refswinstallationplugin/source/sifrefinstallertask.cpp:559-582 | the list that is sorted shows each node of the tree with its name, kind and whether it is the root |
| InstallTasks.LocalizableInfos | installationservices/refswinstallationplugin/source/sifrefinstallertask.cpp:736-748 | the loop pairs names, vendors and languages position by position |
| InstallTasks.CreateAndWriteL | installationservices/refswinstallationplugin/source/sifrefinstallertask.cpp:825-838 | the hundred writes of the footprint add up to the file size that is counted |
| InstallTasks.InstallTask.ExtractEmbeddedPkgsL | installationservices/refswinstallationplugin/source/sifrefinstallertask.cpp:559-582 | extraction fills the list, sorted, and the transaction with exactly the unpacked files, or fails as specified |
| InstallTasks.InstallTask.ParsePkgFileImplL | installationservices/refswinstallationplugin/source/sifrefinstallertask.cpp:602-621 | a foreign package leads to the launch step, a reference one to the search with its parsed record |
| InstallTasks.InstallTask.FinishForeignInstallL | installationservices/refswinstallationplugin/source/sifrefinstallertask.cpp:646-664 | a failed nested installation ends the run with its code; otherwise the next package is taken |
| InstallTasks.InstallTask.FindComponentL | installationservices/refswinstallationplugin/source/sifrefinstallertask.cpp:48-107 | the search data are those of the specified search, with all array positions in range |
| InstallTasks.InstallTask.FindAndCheckComponentL | installationservices/refswinstallationplugin/source/sifrefinstallertask.cpp:666-713 | the registry transaction is opened once, and the next step or the error follow from the status and the user's answer |
| InstallTasks.InstallTask.RegisterComponentL | installationservices/refswinstallationplugin/source/sifrefinstallertask.cpp:730-764 | the component is added with names, type and version, the counters start at zero, and the identifier of a root is reported |
| InstallTasks.InstallTask.CopyFileL | installationservices/refswinstallationplugin/source/sifrefinstallertask.cpp:792-848 | one file is registered and written, or the size is set when none is left; a file in the way is described to the client by its bare path |
| InstallTasks.InstallTask.SetScomoStateL | installationservices/refswinstallationplugin/source/sifrefinstallertask.cpp:850-863 | the component is activated unless asked otherwise, and the run goes on to the next package or the commit |
| InstallTasks.InstallTask.CommitL | installationservices/refswinstallationplugin/source/sifrefinstallertask.cpp:865-872 | both transactions are published on the device |
| InstallTasks.InstallTask.ExecuteImplL | installationservices/refswinstallationplugin/source/sifrefinstallertask.cpp:458-536 | from any state a run can be in, one execution of the object is one step of the state machine, and what it dereferences is there |
| InstallTasks.InstallPackage | installationservices/swinstallationfw/source/siftransporttask.cpp:48-64 | executing the object until it is done or leaves gives the client and the device exactly what Install says, after exactly as many executions |
| UninstallModel.UninstallRefined | installationservices/refswinstallationplugin/source/sifrefinstallertask.cpp:913-986 | an uninstallation takes one execution per file and three more and removes the component with exactly its files, or leaves with the specified error |
| UninstallModel.UninstallMeans | installationservices/refswinstallationplugin/source/sifrefinstallertask.cpp:913-986 | the refusals of a request in their order, and otherwise the component and exactly its files are gone; a silent request asks nobody |
| UninstallModel.UninstallAllOrNothing | installationservices/refswinstallationplugin/source/sifrefinstallertask.cpp:902-911 | until it is done an uninstallation has changed nothing |
| UninstallTasks.UninstallTask.GetFileListL | installationservices/refswinstallationplugin/source/sifrefinstallertask.cpp:945-970 | a missing component and a refusal are noticed only if the user is asked; otherwise both transactions are opened |
| UninstallTasks.UninstallTask.ExecuteImplL | installationservices/refswinstallationplugin/source/sifrefinstallertask.cpp:913-943 | one execution of the object is one step of the state machine |
| UninstallTasks.UninstallComponent | installationservices/swinstallationfw/source/siftransporttask.cpp:48-64 | a whole request removes the component and its files or changes nothing, as the verdict says |
| UninstallTasks.ActivateDeactivate | installationservices/refswinstallationplugin/source/sifrefinstallertask.cpp:1003-1017 | the state of the component is set at once, or the request fails for a null or missing identifier |
| History.RemovedAgrees | installationservices/refswinstallationplugin/source/sifrefinstallertask.cpp:972-986 | removing a reference component keeps the agreement of registry and disk |
| History.AddedAgrees | installationservices/refswinstallationplugin/source/sifrefinstallertask.cpp:730-848 | adding a component whose files are new keeps the agreement of registry and disk |
| History.OneAgrees | installationservices/refswinstallationplugin/source/sifrefinstallertask.cpp:666-863 | installing one package, new or upgrade, keeps the agreement of registry and disk |
| History.InstallAgrees | installationservices/refswinstallationplugin/source/sifrefinstallertask.cpp:458-872 | so does every installation, cut short anywhere, failed or finished |
| History.AgreementForever | installationservices/refswinstallationplugin/source/sifrefinstallertask.cpp:715-848 | over every history of installations, uninstallations and activations: file sets of distinct reference components are disjoint, every registered file exists, and each recorded size is the sum of the sizes on the disk |
| Activation.SetStateMeans | installationservices/refswinstallationplugin/source/sifrefinstallertask.cpp:1003-1017 | the registered component gets exactly the requested state and keeps its other fields, and nothing else changes; the null identifier and a missing component are refused |
| Activation.StateForever | installationservices/refswinstallationplugin/source/sifrefinstallertask.cpp:850-863 | over every history, a reference component that is there is active or not as the last request to switch it asked, else as the request that installed it asked, else as it was |
| Names.OnePerNameKept | installationservices/refswinstallationplugin/source/sifrefinstallertask.cpp:666-752 | for one order of the registry, letting a package in that is newer than all offered components keeps at most one reference component per name and vendor exactly if none but the first that the registry offers bears the package's name |
| Names.KeptInEveryOrder | installationservices/swcomponentregistry/source/server/scrrequestimpl.cpp:2644-2716 | it is kept under every order of the registry exactly if no component bears the package's name in the device language, or none has it in another language only |
| Names.AlignedFirst | installationservices/refswinstallationplugin/source/sifrefinstallertask.cpp:48-107 | if no component has the name in another language only, the one that bears it in the device language is the first that the registry offers |
| Names.RegisteredExactly | installationservices/refswinstallationplugin/source/sifrefinstallertask.cpp:730-863 | with names kept apart, a package of a finished run is registered at the end exactly if no later package of the list is a newer version of it |
| Names.OneKnown | installationservices/refswinstallationplugin/source/sifrefinstallertask.cpp:666-752 | on packages whose names are kept apart, letting one package in keeps one component per name, whatever the versions, and what it replaces is a strictly older version of it |
| Names.OneVersionForever | installationservices/refswinstallationplugin/source/sifrefinstallertask.cpp:666-752 | over every history of installations, uninstallations and activations with a fixed device language, on packages whose names are kept apart, there is at most one reference component per name and vendor, whatever the versions |
| Versions.VersionsClimb | installationservices/refswinstallationplugin/source/sifrefinstallertask.cpp:666-705 | over every such history, whatever the versions, for each reference component by itself: its name keeps this component, or has one to which updates have led, each newer to the comparison than the one before, or some request of the history was to uninstall the component that bore the name at that time |
| Versions.VersionsRise | installationservices/refswinstallationplugin/source/sifrefinstallertask.cpp:666-705 | where the comparison is transitive on the versions of a history, its name keeps this component or a strictly newer version in its place, or was uninstalled |
| Versions.LeadsUpExactly | installationservices/swcomponentregistry/source/client/scrclient.cpp:514-597 | a version leads upwards only, between any two versions that a package can have and whose major numbers are not -1, exactly if its own is not -1 |
| Counterexamples.RisesExactly | installationservices/refswinstallationplugin/source/sifrefinstallertask.cpp:666-705 | over packages with given versions, versions rise in every history exactly if the comparison is transitive on them: it is without major numbers of -1, and with one it is not as soon as -2.0 and -3.50 are there |
| Counterexamples.VersionFalls | installationservices/refswinstallationplugin/source/sifrefinstallertask.cpp:666-705 | with any version that has a major number of -1, successful installations on a new device lead from -2.0 down to -3.50, and then -2.0 installs again |
| Counterexamples.NameTwice | installationservices/swcomponentregistry/source/server/scrrequestimpl.cpp:2644-2716 | four installations on a new device, each successful, with the registry listing matches in ascending order, after which two components have one name and vendor in the device language |
| Counterexamples.ReportedIsGone | installationservices/refswinstallationplugin/source/sifrefinstallertask.cpp:758-764 | a compound package, installed on a new device, whose inner package replaces its root: the request succeeds and reports identifier 1, and only identifier 2 is registered |
| Plugin.RunCompletes | installationservices/refswinstallationplugin/source/sifrefplugin.cpp:143-270 | from any consistent state, every interleaving of requests, answers, runs and cancellations completes each request as the events after it say |
| Plugin.CompletedOnce | installationservices/refswinstallationplugin/source/sifrefplugin.cpp:143-270 | the completions are numbered 0, 1, 2, ... in the order of the requests, and all but the one being served have one |
| Plugin.ExactlyOnce | installationservices/refswinstallationplugin/source/sifrefplugin.cpp:143-270 | in every history a client waits exactly while the object is active, and each request is completed once, with the server's result, a cancellation, or KErrPermissionDenied |
| Plugin.RequestMeans | installationservices/refswinstallationplugin/source/sifrefplugin.cpp:161-270 | to an idle object, a silent installation or uninstallation from a client without the capability is completed at once with KErrPermissionDenied, and every other request makes the object active with its client waiting |
| Plugin.EventsMean | installationservices/refswinstallationplugin/source/sifrefplugin.cpp:143-159 | what answers, runs and cancellations do: the client is told the server's first answer, or KErrCancel if it is cancelled before one |
| Plugin.ServedIsAllowed | installationservices/refswinstallationplugin/source/sifrefplugin.cpp:161-270 | in no history is a silent installation or uninstallation without the capability the request being served |
| Plugin.DeniedIsTold | installationservices/refswinstallationplugin/source/sifrefplugin.cpp:175-180 | in every history each such request is told KErrPermissionDenied |
| Plugin.PluginActiveImpl.CommonRequestPreamble | installationservices/refswinstallationplugin/source/sifrefplugin.cpp:161-183 | a silent request without the capability is completed at once and the pointer cleared; any other is pending |
| Plugin.PluginActiveImpl.Request | installationservices/refswinstallationplugin/source/sifrefplugin.cpp:185-270 | a request makes the object active with the client waiting, or is refused and completed once, as the state machine says |
| Plugin.PluginActiveImpl.RunL | installationservices/refswinstallationplugin/source/sifrefplugin.cpp:143-150 | the client is completed once, with the server's result, and is waiting no longer |
| Plugin.PluginActiveImpl.DoCancel | installationservices/refswinstallationplugin/source/sifrefplugin.cpp:152-159 | the client is there, and is completed once with the answer or KErrCancel |
| Plugin.PluginActiveImpl.Cancel | installationservices/refswinstallationplugin/source/sifrefplugin.cpp:64-68 | cancelling an idle object does nothing; an active one becomes idle with its client completed once |
| CommandLine.GroupsBack | installationservices/refsoftwareappmgr/source/command.cpp:398-433 | options with their values, written out and parsed, come back as the same groups; values before the first option are lost, and without any option they form one unnamed group |
| CommandLine.NamelessRefused | installationservices/refsoftwareappmgr/source/command.cpp:398-433 | an option without a name is refused after the options before it have been handed over, whatever follows |
| CommandLine.ScomoOnce | installationservices/refsoftwareappmgr/source/command.cpp:117-145 | an accepted list command has set the SCOMO filter at most once, to what the single option asked for |
| CommandLine.DeleteAccepted | installationservices/refsoftwareappmgr/source/command.cpp:299-313 | a delete command is accepted exactly if nothing follows it, and then no component is named, or a single value that starts with a number |
| CommandLine.WordsMean | installationservices/refsoftwareappmgr/source/command.cpp:72-75 | the words list and delete, after two dashes, select the commands of that kind and no others |
| CommandLine.NumberMeans | installationservices/refsoftwareappmgr/source/command.cpp:309-312 | a decimal number with or without a sign, whatever follows its digits, is read as that number if it is in range and refused otherwise |
| CommandLine.NoNumber | installationservices/refsoftwareappmgr/source/command.cpp:309-312 | a text that starts with neither a digit nor a sign is refused as a number |
| CommandLine.LanguageMeans | installationservices/refsoftwareappmgr/source/command.cpp:207-217 | languages are the numbers from 1 to 65534 |
| CommandLine.DriveMeans | installationservices/refsoftwareappmgr/source/command.cpp:191-203 | the k-th letter of either case is drive k, and nothing else is a drive |
| CommandLine.DeleteMeans | installationservices/refsoftwareappmgr/source/command.cpp:299-313 | the delete command is for the component whose identifier is written |
| CommandLine.ConsoleCommand.ListOptionHandlerL | installationservices/refsoftwareappmgr/source/command.cpp:92-226 | the switch over the options, step by step, does to the list command what the function of the option does, or is refused and changes nothing |
| CommandLine.ConsoleCommand.DeleteOptionHandlerL | installationservices/refsoftwareappmgr/source/command.cpp:299-313 | the delete command takes the number at the start of a single nameless value as its component, or refuses and changes nothing |
| CommandLine.DriveListL | installationservices/refsoftwareappmgr/source/command.cpp:191-203 | the loop marks exactly the drives of the letters, or fails at a character that is none |
| CommandLine.ListAccepted | installationservices/refsoftwareappmgr/source/command.cpp:92-226 | a list command is accepted exactly if each option is one it takes, with the right number and form of values, and at most one asks for a SCOMO state; the order plays no part |
| CommandLine.ListAsks | installationservices/refsoftwareappmgr/source/command.cpp:92-226 | an accepted list command asks, for each criterion by itself, for what the last of its options says, and for all properties in their order |
| CommandLine.HandleOptionsL | installationservices/refsoftwareappmgr/source/command.cpp:398-433 | the loop hands over exactly the groups of the functional split, in order, up to the first refusal |
| CommandLine.ParseL | installationservices/refsoftwareappmgr/source/command.cpp:366-439 | the last command registered under the name receives the options and no other command changes; anything else is refused |

## Left out

What is assumed of the platform, whose sources are not part of this model:

- RFile::Read returns fewer bytes at the end of the file without an error and KErrArgument for a negative length; the file handle of a request stands at the start of the file.
- TLex::Val reads an optional sign and digits and reports overflow of the target's range; TLex::Inc at the end of the text panics; TDesC::Left takes the whole of a shorter text.
- TDes::Trim and TLex::SkipSpace pass over the space and the codes 9 to 13 and no other character; a platform that also takes a no-break space (0xA0) for white space would trim it from a file name.
- TParse splits a path at its last separator and its last dot; KMaxPath is 256; ConvertBufferTo16bitL zero-extends bytes.
- Case folding is that of ASCII letters; names are not otherwise folded or normalised.
- RFs::CharToDrive takes letters of either case to the drives 0 to 25 and fails with KErrBadName for other characters.
- RPointerArray::Sort permutes and sorts by the comparator, not necessarily stably.
- User::RequestComplete completes a request and clears the pointer; CActive::Cancel calls DoCancel exactly on an active object; a cancelled session function is completed, with KErrCancel if it was not yet, before the call returns.
- TVersion::Name is injective and puts the build number behind the minor one; ELangMaximum and ELangNone are 0xFFFF.
- The registry gives out each identifier once, refuses an empty component name, and keeps the order of registered files; the transaction service fails to create a file that exists and ignores the removal of one that does not, as their sources in this repository show.

What the repository does and the model does not:

- Failure or power loss between the two commits of a task, which the code does not make atomic.
- Validity of file names, disk space, memory, and the removal of empty directories or of directories listed as files.
- Removing a registered file whose path is one of the transaction's own temporary files; where registry and disk agree it cannot happen.
- Collisions of language rows inside one component, global identifiers and properties in the registry, and transactions of other sessions.
- Recognition by content: a file is a reference package by its extension alone, as the recognizer in this repository decides.
- The effects of nested installations are arbitrary; theorems over histories assume that other installers keep to their own files (Considerate) and names (Discreet), and, where versions rise, that they leave reference components or update them as packages would (Steady).
- Requests by open file handle are requests by the file's bytes and name.
- The texts of confirmations and error descriptions, the contents of the placeholder files beyond their length, authenticity, capabilities and applications in component information.
- Virtual dispatch to console commands: one class with a tag stands for the two commands; listing, console output and the delete request itself are left out.
- The plug-in's stored parameter pointers, which nothing reads.
- User interface, server start-up, session transport, launcher, task manager and the native installers' headers: no logic of the installer itself.

Statements that are deliberately weaker than they could be:

- Versions.VersionsRise: for histories on whose versions the comparison is transitive; with other versions it is false (Counterexamples.RisesExactly).
- Names.KeptInEveryOrder: for packages that list the device language; another package is looked up under its first name, and is not registered under one in the device language.
- InfoTasks.ReportIsTree: for foreign packages whose installers return information; an empty answer makes the request fail.
