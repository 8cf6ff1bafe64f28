# Click library cores and the gateway's NAT table

Models, with proofs, of the algorithms at the heart of Click's `lib` directory and of the address
translation table of the `Gateway` program. Each module follows one piece of the source. Loops that
change arrays, cursors or accumulators are methods with invariants, objects are classes, and each is
proved against a specification function or an outright property; what the source promises is proved
of those as lemmas over all inputs, all runs or all reachable states.

- `Tunnels`, `TunnelCycle`: compound elements are flattened by expanding port tunnels with a memoised
  depth-first search.
- `Connections`: `->` and `=>` with port lists and expandable ports.
- `ElementTypes`: the table of element types, with its live chain, free list, name map and scopes.
- `Qsort`: three-way quicksort with an explicit stack that never overflows.
- `Names`, `Ino`: a sorted table of names that encodes a directory tree.
- `LongOptions`: long options by precomputed minimum match.
- `Quoting`, `Confparse`: comments, quotes, escapes and argument lists of configuration strings;
  `ConfComments`, `Escapes`, `ConfText`: what these strings mean, in terms of what they are made of.
- `Ip6Text`, `Ip6Address`: IPv6 addresses as text in the style of section 4 of RFC 5952, read back by
  a parser for section 2.2 of RFC 4291; `DottedQuad`, `Ip6Forms`: what the texts of an address are;
  `Ip6Scan`, `Ip6Accept`: which texts the parser accepts.
- `Archive`, `ArchiveFile`, `ArchiveText`: `ar` archives, and which texts are archives.
- `FlowCode`: which ports of an element packets travel between.
- `Nat`, `NatInOrder`, `Gateway`: the translation table as a state machine over the steps of its
  threads, its behaviour when requests do not overlap, and its chains in place.
- `Crc32`, `Checksum`, `Numeric`: the CRC, the Internet checksum and decimal printing without division.
- `Common`: what several of these share.

`dafny verify dfyconfig.toml` verifies everything.

Some promises one might expect do not hold of the code as it is. The code is
modelled as it is, and the members named give where it fails and the condition under which it holds:

- Flattening loses connections when tunnels form a cycle (`TunnelCycle.CycleLosesChain`); without
  cycles it is exact (`Tunnels.AcyclicIsExact`).
- The skip counts and indices of `ClickIno` are exact if and only if there are at most 65536 entries
  (`Ino.ClickIno.Prepare`), and there are routers with more (`Ino.ManyNamesFit`).
- An empty long option is never accepted, even if only one name is left
  (`LongOptions.EmptyPicksNothing`, `LongOptions.PlainPicks`).
- The NAT table can get two entries for a key, exactly if another thread inserts the key between a
  thread's last look-up and its insertion (`Nat.RaceLeavesTwo`, `Nat.StepKeepsOneEntry`).
- A request for a destination that ends in 255 looks beside the NAT table (`Nat.BesideTheTableAt`,
  `Nat.BesideTheTable`).
- The checksum of a long buffer is exact if and only if its 32-bit accumulator does not wrap
  (`Checksum.LongerBufferWraps`, `Checksum.CksumIsExact`).
- A flow announced to the gateway by `WLAN_NAT_ADD` with its two ports is recorded under the source
  port twice, so its replies reach its source if and only if the ports are equal
  (`NatInOrder.RepliesToFlow`).
- `IP6AddressArg::parse` accepts more than the forms of an address: the empty text, and a third colon
  in front of a dotted quad (`Ip6Accept.AcceptedAt`, `Ip6Accept.AcceptedExactly`).
- `IP6AddressArg::basic_parse` writes past its eight groups for two kinds of text
  (`Ip6Accept.BeyondAt`, `Ip6Accept.BeyondExactly`).
- What `IP6AddressArg::basic_parse` takes of a text that goes on need not be a text of the address it
  gives (`Ip6Accept.PartlyAt`, `Ip6Accept.PartlyRead`).
- An archive with a number too wide for its column, or with a negative date, does not come back
  (`Archive.ArchiveChangesAt`, `Archive.RoundTrip`).
- `Element::port_flow` reads in front of the flow code when a side that runs out has no code to go
  back to (`FlowCode.ReadsInFrontAt`, `FlowCode.ReadsInFront`).

## Model

| member | source | states |
|---|---|---|
| `Tunnels.Lexer.RouterConnections` | click/lib/lexer.cc:2208-2236 | the whole flattening, run on any valid network: every emitted pair of real ports is joined by a chain of connections, each leaving the tunnel the one before enters at the paired element and by the same port number; every chain of at most three connections is emitted; every chain through the first connection that touches a tunnel is emitted; and if no chain comes back to the connection it began with, every chain is emitted, so the emitted set is exactly the joined pairs |
| `Tunnels.AcyclicIsExact` | click/lib/lexer.cc:2208-2365 | without cycles a real pair is emitted if and only if some chain of connections joins it, for every network and list of connections |
| `Tunnels.NoCycleIsAcyclic` | click/lib/lexer.cc:2308-2353 | no chain of connections comes back to where it began if and only if every way on from each of them is bounded |
| `Tunnels.EmittedIsJoined` | click/lib/lexer.cc:2308-2365 | soundness with or without cycles: from an emitted pair a joining chain is constructed |
| `Tunnels.JoinedIsEmitted` | click/lib/lexer.cc:2308-2365 | completeness for a single chain: it is enough that one connection of the chain has no cycle ahead of it and none behind it |
| `Tunnels.ShortIsEmitted` | click/lib/lexer.cc:2308-2365 | a chain of at most three connections is emitted even when its tunnels lie on cycles |
| `Tunnels.FirstIsEmitted` | click/lib/lexer.cc:2208-2236 | whatever cycles there are, every chain through the first connection to be expanded is emitted |
| `Tunnels.ExpandHoldsAll` | click/lib/lexer.cc:2308-2353 | an end is expanded to everything it leads to, cycles or not, if among the ends it leads to none is being expanded and none was finished with something missing |
| `Tunnels.ExpandCovers` | click/lib/lexer.cc:2308-2353 | whatever an expansion passes on its way is either in its result or already being expanded, and it changes no end that was expanded before and none of the other side |
| `TunnelCycle.CycleLosesChain` | click/lib/lexer.cc:2308-2353 | completeness fails with cycles: in a concrete network of three tunnels in a cycle, a chain of four connections between two real ports is never emitted |
| `Tunnels.ExpandAnswers` | click/lib/lexer.cc:2308-2353 | the memoised search: whatever was settled before, expanding an end returns only real ports it reaches, all of them if it reaches no cycle, and always those next to its far end; this stays true of every memoised answer, and the ends marked as being expanded are the same as before |
| `Tunnels.Expand` | click/lib/lexer.cc:2308-2353 | expansion terminates: the ends not yet expanded only get fewer, which also bounds the recursion |
| `Tunnels.NotedFirstCut` | click/lib/lexer.cc:2208-2215 | the first-level pass gives every tunnel end exactly the ports directly connected to its other end, in order |
| `Tunnels.FlattenAdds` | click/lib/lexer.cc:2217-2224 | after the first n connections only pairs that continue one of them on both sides have been added, and none is missing that continues one within a tunnel's reach or where no cycle is around |
| `Tunnels.ProductMember` | click/lib/lexer.cc:2113-2121 | the double loop adds exactly the pairs of a real origin and a real destination |
| `Tunnels.Lexer.NoteConnections` | click/lib/lexer.cc:2208-2215 | the loops over connections and sides leave the first cut of every tunnel end |
| `Tunnels.Lexer.ExpandEnd` | click/lib/lexer.cc:2308-2353 | updates the tunnel ends and appends to the list as the function Expand says |
| `Tunnels.Lexer.ExpandConnection` | click/lib/lexer.cc:2355-2365 | a real port is appended, a tunnel port is expanded, an end that does not exist adds nothing |
| `Tunnels.Lexer.AddRouterConnections` | click/lib/lexer.cc:2106-2122 | expands both sides of a connection and appends their product |
| `Tunnels.Lexer.ExpandConnections` | click/lib/lexer.cc:2217-2224 | visits only the connections there were at the start, although the list grows meanwhile |
| `Qsort.Sort` | click/lib/glue.cc:552-668 | for every array, range and comparator it terminates and permutes the range; if the comparator is a total preorder the range ends up sorted; no write leaves the stack, for every length below 2^64 |
| `Qsort.OneRound` | click/lib/glue.cc:568-647 | one turn of the main loop keeps: the open ranges are disjoint, elements not in one open range are in order, and the range on stack level d was halved d times; and the work left gets less |
| `Qsort.DepthLimit` | click/lib/glue.cc:649-664 | a range that is still worth partitioning lies on a level below 62, because lengths double from level to level |
| `Qsort.PushedHalves` | click/lib/glue.cc:649-664 | pushing the bigger part first keeps the doubling of lengths |
| `Qsort.PushedWork` | click/lib/glue.cc:649-664 | what is pushed is less work than what was popped, for every comparator |
| `Qsort.SettlePartition` | click/lib/glue.cc:611-664 | after a three-way partition, any two elements not inside one of the pushed parts are in order |
| `Qsort.SettleOrdered` | click/lib/glue.cc:573-581 | after sorting a tiny range, any two elements not together in a remaining range are in order |
| `Qsort.PushParts` | click/lib/glue.cc:649-664 | the four stack words written are the two parts in the right order, and an empty second part is not counted |
| `Qsort.Partition` | click/lib/glue.cc:583-647 | leaves smaller, equal, greater around a pivot that the middle part contains, even for a comparator that is not an order |
| `Qsort.Separate` | click/lib/glue.cc:611-636 | the scanning loops leave equals at both ends, smaller and greater between |
| `Qsort.ScanUp` | click/lib/glue.cc:617-623 | moves up over elements not greater than the pivot, equals to the left end |
| `Qsort.ScanDown` | click/lib/glue.cc:624-630 | moves down over elements not smaller than the pivot, equals to the right end |
| `Qsort.Gather` | click/lib/glue.cc:638-647 | the two block swaps bring the equals from the ends to the middle |
| `Qsort.SwapBlocks` | click/lib/glue.cc:533-545 | exchanges two blocks element by element |
| `Qsort.Med3` | click/lib/glue.cc:521-531 | is one of its three arguments and, for a total preorder, one that lies between the other two |
| `Qsort.PivotIndex` | click/lib/glue.cc:583-595 | the pivot is an element of the range, for every length |
| `Qsort.InsertionSort` | click/lib/glue.cc:573-581 | permutes, and sorts for a total preorder |
| `Ino.ClickIno.Prepare` | click/lib/ino.cc:84-175 | for all distinct router names the table holds the root, the names and exactly the missing directories above them, sorted and without duplicates; skip counts are exact, and xindex inverts elementno_plus1, if and only if there are at most 65536 entries, because they are stored in 16 bits |
| `Ino.ClickIno.Arrange` | click/lib/ino.cc:113-149 | sorting, adding directories and sorting again: one entry for each name and each directory above a name |
| `Ino.ClickIno.AddMissing` | click/lib/ino.cc:126-144 | adds the missing directories above one name, relying on the name before it in sorted order |
| `Ino.DirectoryIsNew` | click/lib/ino.cc:131-135 | a directory that is not a prefix of the name before is not in the table yet: '/' sorts before every name character |
| `Ino.DirectoriesKnown` | click/lib/ino.cc:131-144 | once a directory is a prefix of the name before, that directory and all above it are in the table |
| `Ino.EntryCount` | click/lib/ino.cc:113-149 | the entries are one more than the names and directories, so nothing else was added |
| `Ino.SkipAssertion` | click/lib/ino.cc:159 | the assertion on the prefix never fails |
| `Ino.FillSkips` | click/lib/ino.cc:151-163 | every entry gets the number of entries below it, modulo 65536 |
| `Ino.FillIndices` | click/lib/ino.cc:165-167 | xindex becomes the inverse of elementno_plus1 if and only if there are at most 65536 entries |
| `Ino.ClickIno.Grow` | click/lib/ino.cc:54-73 | keeps all entries and makes room |
| `Ino.EntryCompareIsPreorder` | click/lib/ino.cc:76-82 | comparing names is a total preorder, which is what the sort asks for |
| `Ino.ClickIno.NameSearch` | click/lib/ino.cc:178-192 | binary search over names with a common prefix finds an entry if and only if a linear search does |
| `Ino.ClickIno.ElementNameSearch` | click/lib/ino.cc:194-200 | searching the entries below a directory finds a name exactly if the table has the directory's name, a slash and that name |
| `Ino.ClickIno.Lookup` | click/lib/ino.cc:238-317 | what every component leads to in a directory of names: ".", "..", ".e", ".h", the name of an entry, a visible handler, and nothing otherwise |
| `Ino.ClickIno.LookupParent` | click/lib/ino.cc:296-313 | ".." leads to the directory above; its assertion never fails |
| `Ino.ManyNamesFit` | click/lib/ino.cc:84-175 | for every number an int can count there is a router whose table needs that many entries, so also for more than 65536 |
| `Ino.ClickIno.LookupDownAndUp` | click/lib/ino.cc:238-317 | looking up a component and then ".." in what it leads to gives the element number started from |
| `Ino.ClickIno.LookupUpAndDown` | click/lib/ino.cc:238-317 | looking up ".." and then the last component of the name gives the element number started from |
| `Ino.UpUndoesDown` | click/lib/ino.cc:279-313 | down to a child and back up returns to the same entry |
| `Ino.DownUndoesUp` | click/lib/ino.cc:279-313 | up and down again by the last component returns to the same entry |
| `Ino.NextIsChild` | click/lib/ino.cc:228-231 | stepping by skip + 1 always lands on an immediate child |
| `Ino.SkippedAreNotChildren` | click/lib/ino.cc:228-231 | a step passes over no immediate child, so each is visited exactly once |
| `Ino.ClickIno.Nlink` | click/lib/ino.cc:219-235 | the link count of a directory is two, one for each immediate child, and those for its special directories |
| `Names.SlashIsLeast` | click/lib/ino.cc:131-134 | between a directory and something below it, sorting puts only the directory and things below it |
| `Names.CompareIs` | click/lib/ino.cc:76-82 | one name sorts before another if and only if the other continues it or has the greater byte at their first difference |
| `Names.BetweenSharesPrefix` | click/lib/ino.cc:131-135 | what sorts between a prefix and a name with that prefix has it too |
| `Names.ParentIsLowest` | click/lib/ino.cc:130-142 | every directory above a name is its parent or above its parent |
| `Connections.CleanStatement` | click/lib/lexer.cc:1511-1587 | a statement without errors connects the two sides one to one if both stand for many ports, and otherwise the one port of a side with every port of the other |
| `Connections.ConnectAll` | click/lib/lexer.cc:1511-1587 | makes the connections of the statement, and reports each error if and only if it applies: two open lists somewhere; many to many without "=>"; a side that names fewer ports than the other and does not grow |
| `Connections.EqualNumbers` | click/lib/lexer.cc:1511-1587 | with "=>" and equally many named ports on both sides, the i-th output goes to the i-th input, without errors |
| `Connections.OneOutput` | click/lib/lexer.cc:1511-1587 | one output port is connected with every input port, without errors, unless "=>" makes it expand |
| `Connections.OneInput` | click/lib/lexer.cc:1511-1587 | every output port is connected with one input port, likewise |
| `Connections.AbsentInput` | click/lib/lexer.cc:1525-1531 | with "=>" to an element without ports, the i-th of several outputs goes to its port i |
| `Connections.AbsentOutput` | click/lib/lexer.cc:1525-1531 | with "=>" from an element without ports, its port i goes to the i-th of several inputs |
| `Connections.OpenInput` | click/lib/lexer.cc:1533-1585 | an open list of inputs gets as many ports as are missing, numbered on from its last, and the sides are connected one to one |
| `Connections.OpenOutput` | click/lib/lexer.cc:1533-1585 | an open list of outputs, likewise |
| `Connections.ErrorsExactly` | click/lib/lexer.cc:1511-1548 | when each error is reported, in terms of the ports the lists name and of which are open |
| `Connections.NamedIs` | click/lib/lexer.cc:1494-1509 | an absent list names port 0, an open one the ports in front of its end |
| `Connections.StepsMatch` | click/lib/lexer.cc:1540-1548 | if both sides step without an error, the flattened sides are equally long |
| `Connections.FixedIsOne` | click/lib/lexer.cc:1533-1550 | a side that does not step has at most one port |
| `Connections.FlatExpandsOneList` | click/lib/lexer.cc:1563-1585 | the missing ports all go to the first open list, as consecutive ports after its last named one; the other lists are unchanged |
| `Connections.FlatLength` | click/lib/lexer.cc:1494-1538 | a flattened side has the minimum number of ports plus the extra ones if some list takes them |
| `Connections.AdvanceIsTail` | click/lib/lexer.cc:1563-1585 | each step of a cursor moves on by exactly one endpoint of the flattened side |
| `Connections.AnalyzePorts` | click/lib/lexer.cc:1494-1509 | counts the ports named and the open lists of a side |
| `ElementTypes.RunKeepsPartition` | click/lib/lexer.cc:941-1042 | after any sequence of add, remove, scope in and scope out, every id is on exactly one of the two lists, once |
| `ElementTypes.ScopeOutUndoes` | click/lib/lexer.cc:982-1000 | leaving a scope whose cookie is still live removes exactly the scoped types added since and keeps the order of the rest |
| `ElementTypes.ScopeRestores` | click/lib/lexer.cc:982-1000 | after adding only scoped types, leaving the scope restores the live list |
| `ElementTypes.AddFinds` | click/lib/lexer.cc:941-969 | an added name stands for the new type, whose id no live type had, and other names stand for what they did |
| `ElementTypes.ScopeShadows` | click/lib/lexer.cc:941-1000 | a name added in a scope stands for a type of that scope, any other for what it did, and after the scope every name stands for what it did before |
| `ElementTypes.AgesAddUp` | click/lib/lexer.cc:941-1042 | at any later time the live list is the types added since followed by those from before, in order |
| `ElementTypes.NewestIsFirst` | click/lib/lexer.cc:965-1031 | the name map holds the newest live id of each name and no other names |
| `ElementTypes.NewestWithout` | click/lib/lexer.cc:1019-1031 | repairing one entry of the map after a removal gives the map of the remaining types |
| `ElementTypes.Lexer.AddElementType` | click/lib/lexer.cc:941-969 | pushes onto the live chain, reusing a free slot if there is one, and keeps chains, free list and map consistent |
| `ElementTypes.Lexer.RemoveElementType` | click/lib/lexer.cc:1002-1042 | unlinks the slot, repairs the name map and frees the slot, with or without a hint; a bad id changes nothing and returns -1 |
| `ElementTypes.Lexer.LexicalScopingIn` | click/lib/lexer.cc:982-986 | the cookie is the newest live id, or -1 |
| `ElementTypes.Lexer.LexicalScopingOut` | click/lib/lexer.cc:988-1000 | walks the chain while removing from it and leaves the table the specification gives; its assertion never fails |
| `ElementTypes.Lexer.FindOlder` | click/lib/lexer.cc:1022-1026 | finds the next older type of the same name |
| `LongOptions.FindPrefixOpt` | click/lib/clp.c:945-977 | given the precomputed lengths, the first option the scan accepts is one that the text picks; if none is accepted none is picked, the ambiguity count is the number of names the text starts, and the first of them are listed in order |
| `LongOptions.PlainPicks` | click/lib/clp.c:945-977 | with distinct ids and no preferred matches, an option is picked if and only if the text is its name or it is the only name the text starts, and the text is not empty |
| `LongOptions.EmptyPicksNothing` | click/lib/clp.c:939-942 | an empty text is not accepted even if only one name can follow |
| `LongOptions.LongEnoughPicks` | click/lib/clp.c:395-462 | a text at least as long as an option's precomputed length is exactly one that picks it, also with preferred matches and shared ids |
| `LongOptions.MinMatchIsMax` | click/lib/clp.c:395-462 | the update in sequence ends at the largest number of characters needed against any rival, whatever the order |
| `LongOptions.PicksAgree` | click/lib/clp.c:945-977 | options picked by the same text have the same id |
| `LongOptions.OrderDoesNotMatter` | click/lib/clp.c:945-977 | reordering the options does not change what a text picks |
| `LongOptions.AmbiguityIsSame` | click/lib/clp.c:945-977 | nor which options a text could abbreviate, nor how many are counted as ambiguous |
| `LongOptions.MinDifferentChars` | click/lib/clp.c:364-377 | the number of characters that tell one name from another |
| `LongOptions.Argcmp` | click/lib/clp.c:907-943 | mismatch, too short, or the length matched, for the text up to '=' |
| `LongOptions.CalculateLmm` | click/lib/clp.c:452-462 | fills in the minimum match of every option |
| `Quoting.UnquoteQuote` | click/lib/confparse.cc:570-682 | unquoting a quoted string of bytes gives it back, with newlines kept or escaped |
| `Quoting.ArgumentsRoundTrip` | click/lib/confparse.cc:374-813 | quoting a list of byte strings, joining, splitting and unquoting gives the list back |
| `Quoting.ArgvecUnargvec` | click/lib/confparse.cc:374-813 | splitting joined quoted arguments gives back the quoted arguments, for every list |
| `Quoting.QuoteUncomments` | click/lib/confparse.cc:374-423 | a quoted string passes the removal of comments unchanged, up to a comma or the end |
| `Quoting.QuoteIsToken` | click/lib/confparse.cc:319-333 | a quoted string is skipped as one token, whatever is in it |
| `Quoting.BodyUnquotes` | click/lib/confparse.cc:476-615 | the inside of a quoted string unquotes to the string and the rest is left alone |
| `Quoting.QuoteIsPrintable` | click/lib/confparse.cc:628-682 | a quoted string has printable characters only, and newlines only if they are allowed |
| `Quoting.PlainBody` | click/lib/confparse.cc:628-682 | printable characters other than backslash, double quote and dollar are quoted as they are |
| `Quoting.UnargvecJoins` | click/lib/confparse.cc:799-813 | joining puts a comma and a space between arguments and nothing else |
| `ConfText.TextUncomments` | click/lib/confparse.cc:360-423 | for every text made of tokens, space and comments: initial and final space and comments go, the tokens stay as they are, and so does space between them unless a comment is with it, when it all becomes one space |
| `ConfText.ArgumentsSplit` | click/lib/confparse.cc:374-710 | for every list of such texts with commas between: cp_argvec gives each without comments, a last empty one ignored; quoted commas do not split |
| `ConfText.TextUnquotes` | click/lib/confparse.cc:374-615 | for every such text: cp_unquote drops quotes, keeps what single quotes enclose, expands escapes in double quotes, and expands \\<...> everywhere but in single quotes |
| `ConfText.TokenSkips` | click/lib/confparse.cc:335-412 | each kind of token is skipped as a whole: plain characters, single- and double-quoted strings, \\<...>, and quoted strings that are not closed |
| `ConfText.SingleQuoted` | click/lib/confparse.cc:335-423 | a single-quoted string is one argument, whatever is in it, and means what it encloses |
| `ConfText.BareWord` | click/lib/confparse.cc:374-423 | a bare word is one argument and means itself |
| `ConfText.CommentBetween` | click/lib/confparse.cc:374-423 | a comment between two words becomes one space |
| `ConfComments.CommentSkips` | click/lib/confparse.cc:269-285 | a comment is skipped as a whole: to the end of its line, however that is written, to "*/", or to the end of the text |
| `Escapes.EscapeExpands` | click/lib/confparse.cc:476-558 | every kind of escape: the C letters, one to three octal digits, hex digits, line breaks, \\<...> with spaces and comments, and characters that stand for themselves |
| `Escapes.UnitsUnquote` | click/lib/confparse.cc:476-615 | a double-quoted string stands for what its characters and escapes stand for, one after the other |
| `Escapes.UnitSkips` | click/lib/confparse.cc:287-333 | cp_skip_double_quote moves over each escape as far as cp_process_backslash does |
| `Confparse.SkipComment` | click/lib/confparse.cc:269-285 | how far a comment goes, past the end if it is unfinished |
| `Confparse.SkipBackslash` | click/lib/confparse.cc:287-307 | how far a backslash escape goes |
| `Confparse.SkipDoubleQuote` | click/lib/confparse.cc:319-333 | how far a double-quoted string goes |
| `Confparse.SkipSingleQuote` | click/lib/confparse.cc:335-345 | moves behind the next single quote, or to the end if there is none |
| `Confparse.SkipCommentSpace` | click/lib/confparse.cc:360-372 | skips space and comments |
| `Confparse.PartialUncommentAt` | click/lib/confparse.cc:374-423 | removes comments and outer space up to a comma, in one pass with two positions |
| `Confparse.ProcessBackslash` | click/lib/confparse.cc:476-558 | the text an escape stands for and where it ends |
| `Confparse.CpUnquote` | click/lib/confparse.cc:570-615 | unquotes by flushing the text between quotes and escapes |
| `Confparse.CpQuote` | click/lib/confparse.cc:628-682 | quotes by flushing the text between characters that need an escape |
| `Confparse.CpArgvec` | click/lib/confparse.cc:696-710 | splits at top-level commas, a last empty argument not counted |
| `Confparse.CpUnargvec` | click/lib/confparse.cc:799-813 | joins with commas |
| `Ip6Accept.AcceptedExactly` | click/lib/ip6address.cc:327-408 | for every text and every address: IP6AddressArg::parse, names aside, accepts the text as that address if and only if the text is one of its forms in section 2.2 of RFC 4291 (eight groups; groups around "::"; either with a dotted quad at the end), or is empty and the address all ones, or has groups, ":::" and a dotted quad and is read without the third colon |
| `Ip6Accept.BeyondExactly` | click/lib/ip6address.cc:327-393 | for every text: basic_parse writes past its eight groups if and only if the text starts with seven groups, "::" and a hex digit, or is six groups, ":::" and a dotted quad |
| `Ip6Accept.BeyondAt` | click/lib/ip6address.cc:335-379 | two texts that make it do so |
| `Ip6Accept.AcceptedAt` | click/lib/ip6address.cc:335-408 | ":::1.2.3.4" and the empty text are accepted, and no form is written so |
| `Ip6Accept.PartlyRead` | click/lib/ip6address.cc:327-393 | what basic_parse takes of a text that goes on is a text of the address it gives, if and only if the text does not go on with a colon where another group could follow; then the address has a group 0xFFFF in that place |
| `Ip6Accept.PartlyAt` | click/lib/ip6address.cc:335-385 | of "1:2:3:4:5:6:7:x" it takes thirteen characters and gives an eighth group 0xFFFF |
| `Ip6Accept.FormParses` | click/lib/ip6address.cc:335-393 | every form of every address is read to its end and gives that address: groups of one to four digits in either case, a gap anywhere, quad parts with leading zeros |
| `Ip6Accept.TripleIsNoForm` | click/lib/ip6address.cc:335-379 | no form has three colons in front of a quad |
| `Ip6Scan.ScanEnds` | click/lib/ip6address.cc:335-361 | every text divides into groups, at most one "::" and single colons, which the scanner moves over, and a rest at which it has one of three reasons to stop |
| `Ip6Scan.TraceScans` | click/lib/ip6address.cc:335-361 | having moved over such text, the scanner has stored the values of its groups, with a zero for the "::" |
| `Ip6Forms.TextIsForm` | click/lib/ip6address.cc:119-158 | the text written for an address, whichever run of zero groups is left out of it, is one of its forms |
| `Ip6Forms.TextIsPreferred` | click/lib/ip6address.cc:119-158 | which form is written: a quad behind six zero groups, or behind five and 0xFFFF, unless all is zero; otherwise "::" for the run, at its place, if it is longer than one group; otherwise eight groups; digits in lower case and without leading zeros |
| `Ip6Accept.ParseText` | click/lib/ip6address.cc:119-393 | every 128-bit address comes back from its text, and the text is used up: with "::" at the start, in the middle, at the end or absent, and with a dotted quad |
| `Ip6Accept.TextIsInjective` | click/lib/ip6address.cc:119-408 | no text is a form of two addresses, and IP6AddressArg::parse accepts each form as its address; so no two addresses have the same text |
| `Ip6Address.Unparse` | click/lib/ip6address.cc:119-158 | writes the preferred form of the address for the first of its longest runs of zero groups, in lower case and without leading zeros, and the result parses back to it |
| `Ip6Address.FindZeroRun` | click/lib/ip6address.cc:141-150 | finds the first of the longest runs of zero groups |
| `Ip6Address.BasicParseInto` | click/lib/ip6address.cc:327-393 | fills and spreads the groups in place as the function BasicParse says, for every text |
| `Ip6Address.ScanGroups` | click/lib/ip6address.cc:330-361 | the scanning loop on its array, for every text |
| `Ip6Address.SpreadInPlace` | click/lib/ip6address.cc:386-390 | moves the groups behind "::" to the end and clears the gap |
| `DottedQuad.QuadExactly` | click/lib/ipaddress.cc:131-165 | IPAddressArg::parse accepts a text as four bytes if and only if it is four numerals of decimal digits, none over 255, with dots between them, and those are their values |
| `Ip6Address.IpBasicParse` | click/lib/ipaddress.cc:131-155 | reads up to four parts, giving up on a part over 255 without moving on |
| `Archive.RoundTrip` | click/lib/archive.cc:61-214 | for every list of members: unparsing and parsing gives it back if and only if it is not empty, every member is live, no date is negative, user and group ids are below 1000000 and modes below 2^24, and no name has a slash, or a null character while it is short and without white space |
| `Archive.ArchiveComesBack` | click/lib/archive.cc:61-214 | for every list: parsing what unparse wrote succeeds and returns the live members, with their names as far as they can be kept, if and only if there is a live member and all their numbers fit |
| `Archive.ParseUnparse` | click/lib/archive.cc:61-214 | what parse makes of everything unparse writes: the live members up to one with a number too wide for its column, whose header is not recognised any more; negative dates as the largest int; short and long names, odd lengths included |
| `Archive.ArchiveChangesAt` | click/lib/archive.cc:76-206 | a user id of 1000000 makes an archive unreadable, and a date of -1 comes back as the largest int |
| `Archive.GoodMembersAreKept` | click/lib/archive.cc:154-214 | members are kept exactly if and only if they are live and have no slash in their names, nor a null character in a short name without white space |
| `Archive.MemberReads` | click/lib/archive.cc:76-206 | one written member, followed by anything, reads back and leaves the rest if its numbers fit their columns, and stops the parse otherwise |
| `Archive.ReadPadded` | click/lib/archive.cc:48-59 | a decimal or octal numeral padded to its column reads back, cut down to the largest int |
| `ArchiveText.ParseExactly` | click/lib/archive.cc:61-152 | for every text: it is an archive with given members if and only if it is the magic string and at least one section, each with its header, contents and padding, and the members are those of the sections, with the names of the last long name section before each |
| `ArchiveText.LongNameReads` | click/lib/archive.cc:80-109 | a member that refers to offset o of the long name section before it gets the name that starts there, whatever sections come before, between and after |
| `ArchiveText.LongNameIs` | click/lib/archive.cc:102-107 | a long name ends at a slash, white space or the end of its section |
| `ArchiveText.NameIsWritten` | click/lib/archive.cc:166-191 | a name of up to fourteen characters without white space is written into the header, any other in front of the data |
| `ArchiveText.ColumnReads` | click/lib/archive.cc:48-59 | read_uint gives the value of a numeral that white space or nothing follows, as far as an int holds it, and -1 if something else follows |
| `ArchiveText.BadColumn` | click/lib/archive.cc:48-59 | a column that starts with no numeral gives -1 |
| `ArchiveFile.UnparseArchive` | click/lib/archive.cc:154-214 | writes the archive, and want_size is its length |
| `ArchiveFile.CheckName` | click/lib/archive.cc:166-176 | cuts a name at a slash and notices white space before it |
| `ArchiveFile.ParseArchive` | click/lib/archive.cc:61-152 | the cursor loop over sections computes the parse, for every text |
| `ArchiveFile.ReadName` | click/lib/archive.cc:95-118 | the three ways a header gives a name |
| `FlowCode.PortFlowIsRule` | click/lib/element.cc:1026-1071 | for every well-formed flow code, port_flow connects two ports exactly when their codes have something in common, where the last code stands for all further ports |
| `FlowCode.PortFlowIsSymmetric` | click/lib/element.cc:1026-1071 | input p reaches output q as seen from p exactly if it does as seen from q |
| `FlowCode.CompleteFlowAgrees` | click/lib/element.cc:1036-1039 | the shortcut for "x/x" agrees with reading it |
| `FlowCode.SameNumber` | click/lib/element.cc:859-864 | "#/#" connects input p with output q if and only if p == q, and "#/[^#]" if and only if p != q |
| `FlowCode.FirstInputOnly` | click/lib/element.cc:848-857 | "x/y" connects nothing, and "xy/x" input 0 with every output and no other input |
| `FlowCode.Bypass` | click/lib/element.cc:866-869 | "xy/[xy]x" connects input 0 with every output and every input with output 0 |
| `FlowCode.ValidExactly` | click/lib/element.cc:951-998 | next_flow_code complains if and only if no proper code stands where it reads |
| `FlowCode.NextReads` | click/lib/element.cc:951-998 | reading the code of any port, backing up to the last code at the end of a side, gives the bits that code admits |
| `FlowCode.CodeSkips` | click/lib/element.cc:937-961 | skipping a code, and backing up over it, are inverse |
| `FlowCode.ReadsInFront` | click/lib/element.cc:937-1071 | for every text: port_flow reads in front of the text if and only if it reads codes at all (the port exists, the text is not the shared complete one, and its output side is not empty), needs more codes than a side has, and at that side's end there is nothing in front or a ']' with no '[' in front of it |
| `FlowCode.ReadsInFrontAt` | click/lib/element.cc:951-961 | it does for "x]/x", both of whose sides have codes, and for "/x" and every input port |
| `FlowCode.NextKeepsHead` | click/lib/element.cc:951-998 | once it could go back to a last code, it always can |
| `FlowCode.ComputePortFlow` | click/lib/element.cc:1026-1071 | the loops fill the bit vector as the function PortFlow says, for every text |
| `FlowCode.NextFlowCode` | click/lib/element.cc:951-998 | reads one code into the bit vector, for every text |
| `FlowCode.SkipFlowCode` | click/lib/element.cc:937-949 | moves past one code |
| `Nat.EveryRun` | Gateway/gatewayNAT.c:129-249 | over every interleaving of any number of threads, as long as none looks beside the table: the chains hold each inserted entry once and have no cycle, a look-up returns the newest entry inserted for its key or none if and only if there is none, and every byte put into a reply is zero or that byte of an address recorded for the same key |
| `Nat.BesideTheTable` | Gateway/gatewayNAT.c:129-249 | over every interleaving: a thread looks beside the table if and only if some thread takes up a request whose destination ends in 255, for which the table of 255 has no slot, and makes another step |
| `Nat.BesideTheTableAt` | Gateway/gatewayNAT.c:129-134 | one packet to such a destination is enough |
| `Nat.StepKeepsInv` | Gateway/gatewayNAT.c:129-249 | every step of every thread keeps the invariant behind that, with the copying outside the mutex one step a byte |
| `Nat.LookupIsNewest` | Gateway/gatewayNAT.c:129-141 | walking a chain finds the newest inserted entry for the key |
| `Nat.StepKeepsOneEntry` | Gateway/gatewayNAT.c:143-163 | a step leaves one entry for each key if and only if it does not insert a key that another thread inserted after this thread found it missing |
| `Nat.RaceLeavesTwo` | Gateway/gatewayNAT.c:143-163 | for every key, two threads that record it can leave two entries |
| `NatInOrder.RepliesGoToLatest` | Gateway/gatewayNAT.c:129-249 | in every run in which one request is finished before the next begins, there is one entry for each key, and every reply goes to the source recorded last for its key, or is left alone if there is none |
| `NatInOrder.RepliesToFlow` | Gateway/gatewayNAT.c:129-249 | in every such run, and whenever no other request recorded by then has the reply's key: replies to a flow of an outgoing packet go to its source; replies to a flow announced by WLAN_NAT_ADD go to its source if the flow's two ports are equal and are left alone otherwise, because the source port is used for both ports of the key |
| `NatInOrder.RepliesComeFromFlows` | Gateway/gatewayNAT.c:129-249 | a reply goes to a source only if its address, its port and the port it is for are those of a recorded packet of that source, the last one recorded for them |
| `NatInOrder.ReplyIsSent` | Gateway/gatewayNAT.c:207-249 | a reply handled alone always leaves, for the source recorded last for its key |
| `NatInOrder.StepInOrder` | Gateway/gatewayNAT.c:129-249 | every step keeps the progress of the one busy request and the answers given so far |
| `Gateway.NatTable.LookupNatMap` | Gateway/gatewayNAT.c:129-141 | returns the entry for the key, or null if and only if there is none; looks beside the table if and only if the destination ends in 255 |
| `Gateway.NatTable.AddEntry` | Gateway/gatewayNAT.c:143-163 | links a new entry at the head of its chain unless there is one for the key, and disturbs no other; beside the table if and only if the destination ends in 255 |
| `Gateway.NatTable.HandleOutgoing` | Gateway/gatewayNAT.c:207-224 | records the source under the packet's key, other keys unchanged, and rewrites the source address |
| `Gateway.NatTable.HandleIncoming` | Gateway/gatewayNAT.c:228-249 | sends a packet for the gateway to the source recorded for its key, and leaves any other packet alone |
| `Gateway.NatTable.HandleNatAdd` | Gateway/gatewayNAT.c:757-770 | records the controller's source under a key made of its source port twice |
| `Crc32.Crc.Update` | click/lib/crc32.c:64-82 | the table-driven loop computes, for every start value and data, what feeding the bits one at a time does; the table is filled on first use |
| `Crc32.CrcIsRemainder` | click/lib/crc32.c:45-82 | that is the remainder of long division over GF(2) by the generator given by its exponents, of the data shifted up by 32 with the start value added in front |
| `Crc32.FrameLeavesZero` | click/lib/crc32.c:29-82 | data followed by four bytes leaves zero if and only if they are its CRC, most significant byte first |
| `Crc32.BurstIsDetected` | click/lib/crc32.c:45-82 | two messages that differ only within 32 consecutive bits, anywhere, have different CRCs |
| `Crc32.FeedAppend` | click/lib/crc32.c:64-82 | the CRC of a concatenation is that of the second part started from that of the first |
| `Crc32.ByteStep` | click/lib/crc32.c:45-80 | one table look-up does what eight steps of the shift register do |
| `Crc32.GeneratorIsPolynomial` | click/lib/crc32.c:22-41 | the constant is the polynomial that the comment spells out |
| `Crc32.Crc.GenTable` | click/lib/crc32.c:45-59 | every entry is its index clocked eight times |
| `Checksum.CksumIsExact` | click/lib/in_cksum.c:20-51 | for every buffer an int can count, the result is the RFC 1071 checksum if and only if the 32-bit accumulator does not wrap around |
| `Checksum.CksumIsRfc1071` | click/lib/in_cksum.c:20-51 | up to 131074 bytes it cannot wrap, so the result is exact |
| `Checksum.ChecksumCloses` | click/lib/in_cksum.c:20-51 | a buffer with its checksum behind it adds up to all ones |
| `Checksum.ReceiverGetsZero` | click/lib/in_cksum.c:20-51 | the checksum of a buffer that ends with its checksum is zero |
| `Checksum.OddByte` | click/lib/in_cksum.c:38-42 | an odd byte at the end counts as if a zero followed it |
| `Checksum.LongerBufferWraps` | click/lib/in_cksum.c:20-51 | with one word more it can: a concrete buffer gets a wrong checksum |
| `Checksum.FoldIsResidue` | click/lib/in_cksum.c:44-49 | two folds of a 32-bit sum give the one's complement sum |
| `Checksum.ByteOrderDoesNotMatter` | click/lib/in_cksum.c:20-51 | on hosts of either byte order the checksum is the same two bytes in memory, odd lengths included, as long as neither order makes the accumulator wrap around; up to 131074 bytes neither does |
| `Checksum.PseudoRawIsPrefix` | click/lib/in_cksum.c:53-80 | applied to a payload's checksum, it gives the checksum of the RFC 793 section 3.1 pseudo-header followed by the payload |
| `Checksum.InCksum` | click/lib/in_cksum.c:20-51 | the loop with its odd byte and wrapping accumulator, for every buffer |
| `Numeric.AppendNumeric` | click/lib/straccum.cc:263-315 | for every 64-bit number and base 8, 10 or 16 the buffer, filled from its end and never left, ends up holding the numeral |
| `Numeric.CanonicalIsNumeral` | click/lib/straccum.cc:263-315 | that is the only digit string of that value without a leading zero |
| `Numeric.NumeralIsCanonical` | click/lib/straccum.cc:263-315 | it denotes the number, and only zero starts with a zero |
| `Numeric.DigitCharIs` | click/lib/straccum.cc:263-315 | the digits are 0 to 9 and a to f, or A to F |
| `Numeric.DivideByTen` | click/lib/straccum.cc:281-304 | shifts, sums and corrections end with the exact quotient and remainder, and no intermediate value wraps |
| `Numeric.ShiftsStayBelow` | click/lib/straccum.cc:282-300 | the sums of shifts never exceed a tenth |

## Left out

- Tunnels.JoinedIsEmitted: one direction only; when a chain through a cycle of tunnels is nevertheless emitted depends on the order in which ends are expanded; it is shown for acyclic ends, for chains of at most three connections and for chains through the first connection to be expanded.
- Tunnels.Lexer.ExpandConnection: the sorted vector and bucket lists of find_tunnel, which creates ends for further ports on demand, are one map from ends to entries; error messages, and the renumbering and sorting of the final connections, are not modelled.
- Connections.ConnectAll: the groups of a side are records with two port lists, not stretches of one integer vector; error texts are an enumeration.
- ElementTypes.Lexer.AddElementType: factories, thunks and the use counts of compounds are left out; the scope flag and the id packed into one integer are a pair.
- Qsort.Sort: elements are values; swapping them by words or by bytes, and keeping a copy of a word-sized pivot, are not distinguished.
- Ino.ClickIno.Lookup: handlers are a parameter that says whether a visible one exists; the `.e`, `.h` and numbered directories, readdir, and running out of memory are left out; tables of more than 65536 entries, whose counts are wrong, are excluded.
- LongOptions.FindPrefixOpt: the second pass that allows fewer dashes, one-character names that could be short options, and multi-byte characters are left out; the two polarities are handled one at a time.
- Quoting.UnquoteQuote: stated for strings of bytes, which is what the source's strings are.
- Confparse.PartialUncommentAt: running out of memory is left out here as everywhere.
- Ip6Address.BasicParseInto: a text that makes the source store past the eighth group ends in an outcome of its own, and what the source does with the memory behind is left out; groups are in host order; looking up names is left out.
- Archive.ParseUnparse: the memory that sprintf writes behind the 44 characters it has room for is left out; warnings are left out, and cp_integer is modelled as the function from a column to how much it takes and the saturated value.
- FlowCode.PortFlowIsRule: ports are below 128, because the bit vector has 128 places for "#"; a text that makes the source read in front of it ends in an outcome of its own; error messages are left out.
- Nat.EveryRun: a run ends where a thread looks beside the table, and what the source then finds there is left out; failing allocations are left out.
- Gateway.NatTable.HandleOutgoing: whether the packet belongs to the subnet is decided by the caller; the checksums that are recomputed afterwards, sockets and queues are left out.
- Checksum.PseudoRawIsPrefix: the portable branch only, not the one in assembly.
- Numeric.AppendNumeric: shifts and masks are written as division and remainder by powers of two; the signed overload is left out.
- Lexing and parsing of the configuration language, variable substitution, `require` and element factories would add parsing without further invariants.
- Real numbers, fixed-point arithmetic and multi-limb integers of the argument parsers.
- Handlers, masters, tasks, allocators and operating-system glue.
