# Eggdrop botnet core in Dafny

This project models the parts of an Eggdrop bot whose correctness is not visible in any single function: the table of
linked bots and the protocol that keeps it, host mask matching, the bind tables, and the text codecs. The models follow
the C code branch by branch; the theorems say what the code is relied on for.

`dafny verify dfyconfig.toml` checks everything.

## How it is organised

| file | what it holds |
|---|---|
| BotTree | the bot list read as a tree: well-formedness, subtrees, pruning |
| Protocol | each handler as a step on values, the invariant, every run |
| PartyLine, Membership | the compacted array of remote users; join and part messages |
| Botnet | the class with the real tables: lists cut while walked, the array swapped, the slot overwritten; every method equals the step in Protocol |
| Wire, Announcement, BurstWire | base64 numbers, the small printf, word splitting; announcement lines; the table's burst over the wire |
| Admission, Effects | which links and announcements are admitted and what follows for every run; what each message does, field by field |
| Replay, Abort | replaying a link burst; undoing an aborted one |
| Links, PartyReplay | running links against the table; the users in a burst, and the whole burst over the wire |
| TreeWalk | the stackless tree display against a recursive preorder |
| Network, Growth, Parting | many bots at once: routing, flooding, linking two networks, losing a link |
| WrongWay | messages from the wrong direction, on any network |
| Letters | which characters count as equal, from their codes, and what that makes of masks, names and addresses |
| Glob, WildMatch, MaskOrder | the language of masks, the right-to-left matcher, masks as texts for other masks |
| MaskAddr, Cidr, AddrMatch | masks made from addresses, address blocks, splitting at the at sign |
| MaskKeeps, Settings | what a mask made from an address keeps of it; host masks with and without blocks |
| MaskCompare, BlockCompare, MaskOwner | comparing two host masks, the first plain or a block; a mask against the address it was made from |
| BindTable, StackTable | the bind table as a plain map; a stackable one as a map of maps |
| BindCode, TableList | the code that walks the bind table; the ordered list of tables |
| Escape, Flags | escaped fields, flag records |

The C structures that are changed in place are classes and arrays here (`Botnet.Botnet`, `BindCode.BindList`,
`TableList.Tables`, `Flags.FlagRecord`, and the buffers of `Wire` and `Escape`). A linked list is a sequence in a field;
a pointer that walks it is an index. A pointer to a bot (`uplink`, `via`) is that bot's name, which the invariant shows
to be unique; the sentinel 1 and NULL are the constructors `Me` and `Null`. Names are taken as already folded, so that
comparison without case is equality.

## What came out

* The shape of the bot table is stated nowhere in the code. It is an invariant (`BotTree.TreeShaped`) that follows from
  the checks on announcements together with appending at the tail, and every run keeps it.
* A neighbour may report itself gone (`source/botcmd.c:724-742`). Its entry goes, its connection runs on, and when it
  links again on a later connection its burst is refused at the first line, because the route to it is still the older
  connection (`Links.RelinkRefused`). This is the only step that lets running links and direct bots fall apart
  (`Links.StepTidy`), and a burst is replayed exactly when there is nothing to replay or no older running connection to
  the same bot comes first (`Replay.LinkAndReplay`).
* An aborted link burst leaves no bot and no user behind, but two kinds of message are not checked for direction, and
  what they did to others stays done: part messages (`source/botcmd.c:1271-1317`) and updates of a bot's flag and
  version (`source/botcmd.c:604-622`). `Abort.AbortedBurst` gives the state exactly, `Abort.UpdatesKeep` what updates
  leave alone, and `Abort.PartIgnoresDirection` and `Abort.UpdateIgnoresDirection` are runs in which a neighbour that
  has just linked removes a user and rewrites an entry it does not lead to.
* An unlink request for a listed bot that is no neighbour takes out its entry and nothing else
  (`source/botnet.c:948-966`). That keeps the invariant exactly for a bot without children and without users
  (`Links.RemovedAloneKeeps`).
* Matching one mask against another as a text is sound for exactly the masks without `?` and those that mean "any
  nonempty text" (`MaskOrder.MaskComparison`). `addr_match` compares the halves, and where no block is involved the
  same condition on each half decides (`MaskCompare.ComparisonExactness`). With a block it fails: `*@1.2.3.0*` is taken
  to cover `*@1.2.3.0/24`, but not the address 1.2.3.5 (`MaskCompare.BlockEscapes`). A block, on the other hand, compares
  soundly with every mask, block or not, exactly when its user half does or it accepts nothing
  (`BlockCompare.BlockExactness`).
* Splitting at the at sign never accepts too much (`AddrMatch.SplitIsSound`), and is exact for exactly the addresses
  without an at sign and those of the form user@host, with one at sign and text on either side of it
  (`AddrMatch.SplitExactness`). For every other address, `@host`, `user@` and `a@b@c` among them, some mask accepts the
  whole and not the halves.
* A mask made from an address by `maskaddr` accepts it in `addr_match` exactly when there is a host and the mask does
  not end like a block, as it does for a host that ends in `/123` and is kept (`MaskOwner.OwnerAccepted`).
* A user who joined without an address has a space for a flag. The line that announces such a user is misread: the
  first digit of the socket number becomes the flag, the other digits the number (`Membership.BlankMisread`). The users
  in a burst arrive as they were sent exactly when there is no such user among them (`PartyReplay.LinkOverTheWire`).
* With blocks off, the default for channel bans, a mask like `*@1.2.3.0/24` is plain text and accepts no address without
  a slash (`Settings.SlashNeeded`). For masks that are no block, turning blocks on can only lose matches, and loses none
  on exactly the addresses without an at sign and those of the form user@host (`Settings.SettingsCondition`).
* A block `/0` matches nothing, not even itself: `cidr_match` refuses a count below 1 (`AddrMatch.BlockComparison`).
* Answers from a bind table are independent of the order of its list, and so of the move to the front, exactly when its
  masks differ in more than case (`BindTable.OrderMatters`).
* Of a flag record of both kinds, only the global part is printed, and AND is told from OR only after a global part
  (`Flags.SelectedSurvive`, `Flags.AndSurvives`).
* Escaped fields survive for exactly the pairs of different divider and escape character (`Escape.RoundTripCondition`).
  `strchr_unescape` stays within a text exactly when every escape before its first divider has its two characters
  (`Escape.EndsInside`); after an escape cut short it steps over the terminator or out of the memory
  (`Escape.CutShort`).
* In a record that selects only global flags, and in no other, a second separator in the text makes `break_down_flags`
  set the string pointer to an empty literal and then move it past the end (`source/flags.c:383-384`,
  `source/flags.c:425`; `Flags.PastTheEnd`, and `Flags.TwoSeparators` for the text `a|b|c`). The model stops there,
  which is what the branch is for.

That tables can agree at all is `Growth.AloneAgrees`, a single bot without links, from which `Growth.JoinAgrees` builds
every tree of bots.

## Model

| member | source | states |
|---|---|---|
| BotTree.WellFormedIsTreeShaped | source/botnet.c:86-109 | what appending one fitting entry after another gives is exactly: names distinct and never mine, each parent me or an earlier entry, each route the bot itself or its parent's |
| BotTree.SubtreeIsDescendants | source/botnet.c:371-394 | the set of bots removed with a bot is exactly the set whose chain of uplinks leads to it |
| BotTree.SubtreeIsVia | source/botnet.c:398-411 | below a direct neighbour are exactly the bots routed through it |
| BotTree.ClosureAfterPrune | source/botnet.c:371-394 | after subtrees are cut, every other subtree is what it was less what it shared with them |
| BotTree.PruneWellFormed | source/botnet.c:371-394 | cutting whole subtrees keeps the table well formed |
| BotTree.PruneCount | source/botnet.c:292-327 | the list shrinks by exactly the number of bots in the cut subtrees |
| BotTree.SiblingsDisjoint | source/botnet.c:837-850 | subtrees of different children share no bot, so recursive counting counts nobody twice |
| Botnet.Botnet.AddBot | source/botnet.c:86-109 | the new entry goes to the tail, with its parent and route looked up in the extended list; the count goes up by one |
| Botnet.Botnet.RemBot | source/botnet.c:292-327 | exactly the named entry is unlinked, the others keep order and fields, and the count follows |
| Botnet.Botnet.RemParty | source/botnet.c:329-352 | the entry with the key is overwritten by the last one; as a table of users, only that key is gone |
| Botnet.Botnet.RemPartyBot | source/botnet.c:356-367 | every user on the bot goes, although the array is compacted under the loop |
| Botnet.Botnet.Unvia | source/botnet.c:371-394 | deleting from the list it walks while recursing, it removes exactly the strict descendants, and the users on them and on the bot; everything up to the bot's own entry is untouched |
| Botnet.Botnet.RemoveSubtree | source/botnet.c:371-394 | a child's turn in that recursion removes its whole subtree, counts and users included |
| Botnet.Botnet.DropBot | source/dcc.c:410-417 | clearing what is behind a bot and then unlinking it is the one step that takes its subtree and its users out |
| Botnet.Botnet.BotsInSubtree | source/botnet.c:837-850 | the recursive count is the size of the set of descendants, the bot included |
| Botnet.Botnet.UsersInSubtree | source/botnet.c:852-867 | the recursive count is the number of users on those bots |
| Botnet.Botnet.EofDccBot | source/dcc.c:464-480 | the reported numbers of lost bots and users are by how much both tables then shrink |
| Botnet.Botnet.LostDcc | source/dccutil.c:332-346 | the kill hook removes what was behind a running link, then the slot is overwritten; an index out of range does nothing |
| Botnet.Botnet.NextBot | source/botnet.c:398-411 | the first running link to the bot's neighbour, or -1 |
| Botnet.Botnet.BotVersion | source/dcc.c:183-240 | the handshake, from the text of the message on, either adds the neighbour and turns the link on, or (known name, foreign handle length) drops the link |
| Botnet.Botnet.BotNlinked | source/botcmd.c:626-703 | the handler, from the text of the message on, is the announcement step: accepted with the entry appended, or the sender disconnected and everything behind it lost |
| Botnet.Botnet.BotUnlinked | source/botcmd.c:724-742 | only a report about a bot behind the sender has an effect, and that is the loss of the subtree |
| Botnet.Botnet.AddParty | source/botnet.c:141-194 | a known key is updated and its old channel returned, a new one appended with -1 returned; the index is the member's; the array grows by fifty exactly when it was full; keys stay unique exactly unless a long name, cut after the search, becomes one that is there |
| Botnet.Botnet.BotJoin | source/botcmd.c:1192-1268 | the handler is the join step with the socket number resolved: the one given, else that of the first member with this bot and nick, else the next made-up one, which is used up even if the message is then refused |
| Botnet.Botnet.BotPart | source/botcmd.c:1271-1317 | the handler removes the key the message names, or without a socket number that of the first member with this bot and nick, whoever sends it |
| Botnet.Botnet.BotNickchange | source/botcmd.c:1158-1188 | a user gets a new nick, cut to fit, exactly if its bot is behind the sender and it is listed |
| Botnet.Botnet.BotUpdate | source/botcmd.c:604-622 | the handler is the update step: a flag that is not NUL and a version that is not 0 overwrite those of the bot named, whoever sends it |
| Botnet.Botnet.UpdateBot | source/botnet.c:111-122 | only the entry of that name changes, and only in those two fields |
| Botnet.Botnet.DumpLinks | source/botnet.c:733-755 | the burst is one line for each entry in list order, "me" printed as my name |
| Botnet.Botnet.DumpParty | source/botnet.c:756-806 | one line for each of the bot's own users and then for each member of the array, in order, each cut only where the buffer ends |
| Botnet.SubtreeRemoved | source/dcc.c:410-417 | descendants first and then the bot is the same list as the whole subtree at once |
| Botnet.ChildRemoved | source/botnet.c:371-394 | with one child's subtree gone, what is left to remove is what was to be removed less that subtree |
| Botnet.LossCounts | source/dcc.c:464-480 | the user table shrinks by the users on the lost bots |
| PartyLine.SwapOutTable | source/botnet.c:329-352 | overwriting an entry by the last one removes just that key from the table of users |
| PartyLine.SockFound | source/botnet.c:127-139 | the number found for a bot and a nick is that of the first member with both, or 0 |
| Protocol.RouteExists | source/botnet.c:398-411 | a bot is listed exactly when it has a route, and the route is a running link to its direct neighbour |
| Protocol.AcceptedFits | source/botcmd.c:626-703 | the checks on an announcement are enough for the appended entry to fit: its parent is listed and has the sender's route |
| Protocol.StepKeeps | source/botcmd.c:604-742 | every step (connect, version, announcement, report of loss, hang-up, join, part, nick change, update, removal of a dead connection) keeps the invariant |
| Protocol.RunKeeps | source/botcmd.c:626-742 | so does every run, of any length and in any order |
| Protocol.ReachableStates | source/botnet.c:86-109 | in every reachable state the table is tree-shaped, the count is the list's length, every user is on a listed bot, and every bot has a route |
| Admission.Handshake | source/dcc.c:183-240 | a handshake is completed exactly for a bot that is neither known nor me and has handles of nine characters; it is then the last entry, directly below me; otherwise only the connection is lost |
| Admission.Announcing | source/botcmd.c:626-703 | an announcement is carried out exactly for a new name of at most nine printing characters, with a listed parent behind that link, from a sender that is no leaf; otherwise the sender loses its link and its entry, and nobody is added |
| Admission.Admitted | source/botcmd.c:650-679 | in every reachable state names have at most nine characters, those announced by another bot only characters 32 to 126, and if every announcement on connections to a bot finds it a leaf, only the bot itself is routed through it |
| Effects.JoinEffect | source/botnet.c:141-194 | after an accepted join the key is on the channel named; with an address flag and address are replaced, without one they are kept, or start as a space and a text; every other user is untouched |
| Effects.RenameEffect | source/botcmd.c:1158-1188 | a nick change touches the nick of one listed user on a bot behind the link, cut to nine characters, and nothing else |
| Effects.PartEffect | source/botcmd.c:1271-1317 | a part takes out the key it names and nothing else |
| Effects.UpdateEffect | source/botnet.c:111-122 | a flag of NUL leaves the flag alone and a version of 0 the version; no other field of any bot changes |
| Effects.GoneEffect | source/botcmd.c:724-742 | a report of loss about a bot behind the link takes out exactly the bots from which uplinks lead to it and the users on them; any other changes nothing |
| Effects.HangupEffect | source/dcc.c:410-417 | so does the loss of a running link for its bot; any other connection takes nothing with it |
| Effects.SweepEffect | source/dccutil.c:355-383 | sweeping takes out one dead connection, and keeps all others |
| Replay.BurstReplay | source/botnet.c:739-755 | every line of a burst is accepted, and the receiver ends with the sender's list appended, roots hung below the sender, routes those of the sender |
| Replay.LinkAndReplay | source/dcc.c:183-240 | handshake and burst together give the old list, the neighbour, the neighbour's list, exactly when there is no burst or no older running connection to the same bot comes first; otherwise the state is the one before the link |
| Effects.GraftEffect | source/botnet.c:739-755 | field by field what arrives of the sender's table: name and version, the flag unless it marks a new link, the parent or else the sender, and the sender's route |
| Effects.LinkEffect | source/dcc.c:183-240 | entry by entry the state a whole link leads to |
| Effects.UserEffect | source/botnet.c:756-806 | and user by user what the users of a burst add |
| Links.StepTidy | source/botcmd.c:724-742 | that running links lead to distinct bots, each listed directly below me, is kept by a step exactly when it is not a neighbour's report about itself |
| Links.RunTidy | source/botcmd.c:724-742 | along a run it holds at every point exactly when there is no such report |
| Links.ReplayAfterRun | source/dcc.c:183-240 | after any run from the start without such a report, every link burst is replayed in full |
| Links.RelinkRefused | source/botcmd.c:724-742 | a run with one: the bot reports itself gone, links again, and whatever it knows, its burst is refused at the first line |
| Links.RemovedAloneKeeps | source/botnet.c:948-966 | taking out one listed entry alone keeps the invariant exactly if the bot has no children and no users |
| PartyReplay.JoinsReplay | source/botnet.c:756-806 | the joins of a list of users, none with a space for a flag, on bots behind a link add exactly those users |
| PartyReplay.LinkWithUsers | source/botnet.c:733-826 | handshake, table and users: the receiver ends with its own users and the sender's, exactly when nothing is sent or no older running connection to the same bot comes first, and no user has a space for a flag |
| PartyReplay.LinkOverTheWire | source/botnet.c:733-826 | the same from the printed lines of both tables on, whatever number the receiver gives a join it reads none in |
| PartyReplay.UsersComplete | source/botnet.c:141-194 | in every run users have a channel of at least 0, a flag, an address, and a nick that fits, which is what the two theorems ask of those listed |
| Abort.AbortedBurst | source/botcmd.c:635-678 | a link comes up, its peer sends any announcements, loss reports, joins, parts, nick changes and updates, then the link is lost (hang-up or a refused announcement): the bots are those before the link with its updates applied, the counts are as before, and so are the users, except those its part messages named |
| Abort.UpdatesKeep | source/botnet.c:111-122 | updates leave names, order, parents, routes and the number of bots alone, and entirely those bots no update named |
| Abort.UpdateIgnoresDirection | source/botcmd.c:604-622 | a concrete run in which an update from the wrong direction stays |
| Abort.PartIgnoresDirection | source/botcmd.c:1271-1317 | a concrete run in which a part from the wrong direction stays |
| Wire.IntToBase64 | source/botmsg.c:77-93 | writing backwards gives the digits of the number, one to six of them, inside the twelve bytes, with the terminator last |
| Wire.Base64Width | source/botmsg.c:77-93 | an unsigned 32-bit number has one to six digits |
| Wire.Base64ToInt | source/botcmd.c:62-72 | the loop gives the number the digits denote, wrapped to 32 bits |
| Wire.Base64RoundTrip | source/botmsg.c:77-93 | every signed 32-bit number comes back through the cast to unsigned and the wrap-around |
| Wire.Alphabet | source/botcmd.c:45-72 | the 64 digits by their codes, and that anything else decodes as 0 |
| Wire.SimpleSprintf | source/botmsg.c:140-196 | the line is the expanded format cut at 1023 characters, and the terminator is inside the buffer |
| Wire.Conversions | source/botmsg.c:140-196 | what each of the conversions prints of its argument |
| Wire.PercentSigns | source/botmsg.c:140-196 | two percent signs print one, an unknown conversion prints itself, a last percent sign nothing |
| Wire.IntToBase10 | source/botmsg.c:95-121 | the decimal digits of a number, with its sign, inside the seventeen bytes |
| Wire.UnsignedToBase10 | source/botmsg.c:123-138 | those of an unsigned number inside the sixteen bytes |
| Wire.Base10RoundTrip | source/botmsg.c:95-121 | a number printed in decimal is read back by atoi, sign and all |
| Wire.NewSplit | source/misc.c:275-291 | leading spaces go, the word ends at the next space, and one space is consumed |
| Announcement.PrintNlinked | source/botmsg.c:391-397 | the printed line is command, two names, flag and digits, never cut |
| Announcement.ReadNlinked | source/botcmd.c:626-689 | the handler's word splitting, with defaults for a missing flag or number |
| Announcement.WireRoundTrip | source/botmsg.c:391-397 | printing and taking the received line apart gives back all four fields |
| Announcement.PrintUpdate | source/botmsg.c:434-440 | the printed update is command, name, flag and digits, never cut |
| Announcement.UpdateRoundTrip | source/botmsg.c:434-440 | printing an update and taking the line apart gives back all three fields |
| Announcement.EndsEarly | source/botcmd.c:626-649 | what a message that ends early counts as: flag '-' and version 0, an empty parent, an empty name |
| Announcement.UpdateEndsEarly | source/botcmd.c:604-622 | an update that ends early brings no flag and version 0 |
| BurstWire.BurstHeard | source/botnet.c:739-755 | the printed lines of a burst, taken apart again, are the announcements it stands for |
| BurstWire.LinkOverTheWire | source/dcc.c:183-240 | the replay theorem from the printed text on, with its exact condition: table, lines, handlers, table |
| Membership.PrintJoin | source/botmsg.c:637-648 | the line of a join, in the three formats that send one, cut only where the buffer ends |
| Membership.ReadJoin | source/botcmd.c:1192-1235 | the handler's word splitting of a join, to which the round trip gives its meaning |
| Membership.JoinRoundTrip | source/botcmd.c:1192-1235 | printing a join and taking the line apart gives back every field exactly when the flag is no space and a name that begins with the mark is sent with one |
| Membership.BlankMisread | source/botcmd.c:1192-1235 | what a join with a space for a flag is read as |
| Membership.PrintPart | source/botmsg.c:689-698 | the line of a part, cut only where the buffer ends |
| Membership.PartRoundTrip | source/botcmd.c:1271-1300 | the same for a part, exactly unless such a name is sent without the mark |
| Membership.VersionRead | source/dcc.c:183-210 | version and handle length in decimal are read as they were written, a bot before 1.29.9 counts as having nine characters, and a message that begins with no digit comes from such a bot |
| Membership.PrintNick | source/botmsg.c:734-741 | the line of a nick change, cut only where the buffer ends |
| Membership.NickRoundTrip | source/botcmd.c:1158-1188 | a nick change printed and taken apart gives back bot, number and nick |
| Membership.OwnMarked | source/botnet.c:756-806 | in a burst the lines of the sender's own users, and only those, carry the mark |
| TreeWalk.EveryBotOnce | source/botnet.c:612-725 | the display order holds every bot exactly once |
| TreeWalk.LevelsAreDepths | source/botnet.c:612-725 | and each at the level that is its distance |
| TreeWalk.TellBottree | source/botnet.c:612-725 | the walk ends, never reports a tree error, gives up exactly when some bot is 20 or more links away, and otherwise shows the preorder with `tothops` the sum of all depths |
| Network.OnwardParents | source/botnet.c:398-411 | where all tables agree, a walk that never turns back is a chain of parents in the table of the bot it starts from |
| Network.RoutesOnWalk | source/botnet.c:398-411 | at every bot of the walk, the routes to its two ends are its neighbours on it |
| Network.Routing | source/botcmd.c:945-968 | a routed message passes the direction check at every hop, gets one link closer with each, and is handled at its target after exactly the distance |
| Network.DeliverKeeps | source/botcmd.c:973-988 | each delivery of a flooded message keeps: copies under way are exactly the links between bots that have it and those that do not, none handled twice, none refused |
| Network.Flooded | source/botmsg.c:198-211 | in any order of delivery the flood ends after exactly bots - 1 deliveries, each other bot handling the message once |
| WrongWay.RightWayThroughout | source/botcmd.c:945-968 | on any network, whatever its tables say, a message that is still travelling or was handled came at every bot from the neighbour that leads back, made one hop for each, and is handled at its target |
| WrongWay.FloodHandles | source/botcmd.c:973-988 | on any network, in any order: exactly the receivers of copies that came from the neighbour that leads back handle the message, in order of delivery, and all other copies are refused |
| WrongWay.WrongCopy | source/botcmd.c:973-988 | a refused copy is passed on to nobody |
| Growth.JoinAgrees | source/botcmd.c:626-703 | linking two networks whose tables agree gives one whose tables agree |
| Growth.HearsOfLink | source/botmsg.c:391-397 | a bot that hears the announcement and the burst computes the table of the joined network |
| Growth.MakesLink | source/dcc.c:183-240 | so does the bot that makes the link, exactly when there is no burst or no older running connection to the same bot comes first |
| Parting.BehindLink | source/botnet.c:371-394 | seen from one side of a link, the subtree at its far end is exactly the other side, whichever bot looks |
| Parting.HalfAgrees | source/botcmd.c:724-742 | after a link is lost, the pruned tables of each side agree on that side's links |
| Parting.HearsOfLoss | source/botcmd.c:724-742 | a bot that hears of the loss computes the pruned table |
| Parting.LosesLink | source/dcc.c:410-417 | so does the bot that loses the link |
| Parting.PartAfterJoin | source/dcc.c:410-417 | joining two networks and losing the link again gives back the first, fields and order included (and by symmetry the second) |
| Glob.MatchesIsCutting | source/match.c:157-223 | a text is in a mask's language exactly when it can be cut into pieces for the mask's characters in order |
| WildMatch.Exchange | source/match.c:157-223 | at the next star it is enough to have matched the stretch since the last star as far right as possible |
| WildMatch.WildMatch | source/match.c:157-223 | the matcher accepts exactly nonempty masks and texts in the language, its value is 1 plus the characters that stand for themselves, and it takes at most (m+1)(n+1) rounds |
| Letters.SameIsTwins | source/match.c:157-223 | two characters are the same to the matcher exactly if they are equal or a capital and its small letter, by their codes |
| Letters.MatcherIgnoresCase | source/match.c:157-223 | changing the case of any letters of mask and text changes neither the verdict nor the value |
| Letters.PlainMask | source/match.c:157-223 | a mask without wildcards accepts its own text in any case and nothing else |
| Letters.ExactCounts | source/match.c:157-223 | the value counts the positions of the mask that hold no wildcard |
| MaskOrder.Transitive | source/match.c:157-223 | a mask without `?` that accepts another mask accepts what the other accepts |
| MaskOrder.MaskComparison | source/match.c:157-223 | as one call of the matcher, comparison is sound for exactly the masks without `?` and the masks for any nonempty text |
| MaskOrder.Fooled | source/match.c:157-223 | for every other mask, a mask and a text that show it |
| MaskAddr.MaskCovers | source/misc.c:322-416 | whatever the type, the mask made from nick!user@host accepts it |
| MaskAddr.MaskAddr | source/misc.c:322-416 | the code builds that mask for all inputs |
| MaskKeeps.MaskDecides | source/misc.c:322-416 | the mask of any type of one address leaves another in exactly if the nick is the same (types 5 to 9 modulo 10), the user is left in (any, the same, or ending in the bare name), and the host is (by kind of host and type) |
| MaskKeeps.MaskParts | source/misc.c:322-416 | the mask has three parts, and which part of the address each comes from |
| MaskKeeps.MaskWithoutNick | source/misc.c:327-362 | a text without nick, or without nick and user, has stars there |
| MaskKeeps.WhereCut6 | source/misc.c:368-375 | an IPv6 host is cut behind its last colon, or behind a dot that follows it |
| MaskKeeps.ThreeLabels | source/misc.c:395-410 | of a host of three labels the last two are kept |
| MaskKeeps.FourLabels | source/misc.c:395-410 | of four labels the last two if the last is longer than two letters, else the last three |
| MaskKeeps.ManyLabels | source/misc.c:395-410 | of more than four labels all but the first two |
| MaskKeeps.HiddenJoin | source/misc.c:376-394 | from type 20 on digits are hidden piece by piece wherever no run of them is cut in two (and each run by one star, the rest not: `MaskKeeps.RunIsStar`, `MaskKeeps.NoDigitHidden`) |
| Cidr.CidrMatch | source/match.c:328-352 | whole bytes and one shifted byte decide exactly whether the first `count` bits agree |
| Cidr.PrefixInBytes | source/match.c:328-352 | that is, the whole bytes are equal and the next differs at most in the bits left over |
| Cidr.BlockContainment | source/match.c:263-275 | comparing lengths and then the shorter prefix decides containment of address blocks |
| AddrMatch.AddrMatch | source/match.c:234-275 | the code with its folded copies, cut at the last at sign, gives the verdict stated by `AddrAgrees` |
| Letters.FoldIsTwins | source/rfc1459.c:109-142 | two characters of an address are the same exactly if equal, a capital and its small letter, or one of four pairs of punctuation, by their codes |
| Letters.AddressesIgnoreCase | source/match.c:234-275 | changing those in mask and address changes no verdict, whatever the setting |
| Letters.OnlyTheStart | source/match.c:239-248 | only the first 323 characters of either count |
| Settings.SettingsCondition | source/match.c:252-275 | blocks on and off agree on an address, for all masks that are no block, exactly if it has no at sign or one with text on either side |
| Settings.OnIsNarrower | source/match.c:252-275 | for such masks and any address, what is accepted with blocks on is accepted with blocks off |
| Settings.OffIsPlain | source/match.c:252-253 | with blocks off every mask, a block too, is a pattern for the whole address |
| Settings.SlashNeeded | source/match.c:252-253 | so that a mask with a slash then accepts no address without one |
| Settings.EmptyHosts | source/match.c:254-275 | with blocks on, two empty hosts agree |
| Settings.BlockOverAddress | source/match.c:261-274 | a block accepts exactly the users its user half accepts at addresses that convert in the same family and agree in as many bits as it says, from 1 to 32 or 128 |
| Settings.WhereBlocks | source/match.c:261-273 | a block is written as a last slash followed by digits up to the end |
| AddrMatch.SplitIsExact | source/match.c:234-275 | for addresses user@host, matching both halves is matching the folded whole |
| AddrMatch.SplitExactness | source/match.c:234-275 | matching the halves is matching the whole, for all masks without a block, exactly for addresses without an at sign and of the form user@host |
| AddrMatch.SecondAtSign | source/match.c:234-275 | for every address with two at signs, a mask that accepts the whole and not the halves |
| AddrMatch.AtSignAtEnd | source/match.c:234-275 | and for every address whose one at sign stands at an end |
| AddrMatch.SplitIsSound | source/match.c:234-275 | for any address, what the halves accept the whole accepts |
| AddrMatch.SplitCanLose | source/match.c:234-275 | an address with two at signs where the halves refuse what the whole accepts |
| AddrMatch.BlockComparison | source/match.c:263-275 | one block is accepted over another exactly when its length is at least 1 and it contains every address of the other |
| MaskCompare.ComparisonExactness | source/match.c:234-275 | comparing host masks where none is a block: sound for exactly the masks whose halves are each without `?` or for any nonempty text (or whose first half is empty, so that they accept nothing) |
| MaskCompare.FooledMask | source/match.c:234-275 | for every other mask, a mask and an address that show it |
| MaskCompare.BlockEscapes | source/match.c:263-275 | a mask without `?` that accepts a block but not an address in it |
| BlockCompare.BlockExactness | source/match.c:234-275 | a block accepts of every mask it accepts, block or not, all addresses, exactly if its user half is without `?` or for any nonempty text, or it accepts nothing (an empty user half, or a block that does not lie in itself) |
| BlockCompare.BlockOverBlock | source/match.c:234-275 | whole masks with blocks in one family: accepted exactly if the user half is accepted, the length is at least 1 and every address of the second block lies in the first |
| MaskOwner.HostBlock | source/misc.c:322-416 | the host part of a mask ends like a block exactly when the host does and the mask type keeps its end |
| MaskOwner.OwnerAccepted | source/match.c:234-275 | a mask made from nick!user@host accepts it in halves exactly when the host is not empty and the mask does not end like a block |
| BindTable.BindRefines | source/tclhash.c:378-437 | binding is an update of the plain map, with at most one live command a mask |
| BindTable.UnbindRefines | source/tclhash.c:346-374 | unbinding removes the mask from the map if it runs that procedure |
| BindTable.CollectRefines | source/tclhash.c:112-159 | garbage collection changes nothing in the map and leaves nothing marked |
| BindTable.LookupRefines | source/tclhash.c:794-909 | the scan answers as the map does: a permitted exact mask, else the only permitted abbreviation, else ambiguous or no match |
| BindTable.LookupKeeps | source/tclhash.c:893-903 | counting the hit and moving the mask to the front changes nothing in the map |
| BindTable.OneAnswer | source/tclhash.c:794-909 | where masks differ in more than case, the map has one answer to each question |
| BindTable.HistoryRefines | source/tclhash.c:346-437 | after any history the list stands for the map, each mask has at most one live command, and every answer is the map's |
| BindTable.OrderMatters | source/tclhash.c:893-903 | the order of the list cannot be seen in any answer exactly when the masks differ in more than case |
| BindTable.LookupMoves | source/tclhash.c:893-903 | what a lookup does to the list: the mask chosen goes to the front with one hit more on the command chosen, the others follow as they were |
| BindTable.WhatIsChosen | source/tclhash.c:802-845 | the command is the first live one that is permitted; of several masks with one, an exact one, or else the last |
| BindTable.BindPlaces | source/tclhash.c:378-437 | a new mask goes to the front, a new command to the front of its mask, and an old one keeps place, hits and spelling |
| Letters.EqualFoldIsRecased | source/tclhash.c:750-752 | procedures and exact masks are compared up to the case of letters, by their codes |
| Letters.AbbreviatesIsPrefix | source/tclhash.c:747-749 | and an abbreviation is such a start of the mask |
| StackTable.StackBind | source/tclhash.c:378-437 | in a stackable table, where a mask stands for a map from procedure to flags, a bind adds or re-flags its own procedure under its own mask and removes none |
| StackTable.BindProcs | source/tclhash.c:403-437 | and a new procedure is triggered before the others, an old one in its old place |
| StackTable.StackUnbind | source/tclhash.c:346-374 | an unbind removes exactly that procedure under exactly that mask |
| StackTable.StackCollect | source/tclhash.c:112-159 | garbage collection changes no such map |
| StackTable.StackHistory | source/tclhash.c:346-437 | after any history of the three, each mask stands for its map, with each procedure at most once |
| BindCode.BindList.Bind | source/tclhash.c:378-437 | the code that searches, marks and links in front is the bind step |
| BindCode.BindList.Unbind | source/tclhash.c:346-374 | the code that searches and marks is the unbind step, and says whether it found anything |
| BindCode.BindList.Collect | source/tclhash.c:112-159 | unlinking while walking leaves the live commands and the masks that have any |
| BindCode.BindList.Scan | source/tclhash.c:802-845 | one pass finds the first exact hit or else the last hit, how many, and the mask before it |
| BindCode.BindList.Check | source/tclhash.c:794-909 | the lookup gives that answer, counts the hit and moves the mask to the front |
| TableList.CompareOrders | source/tclhash.c:313-328 | the three-way comparison of names is a total order |
| TableList.SearchComplete | source/tclhash.c:313-328 | stopping at the first live name not below the one sought misses nothing, marked tables in between or not |
| TableList.Tables.Find | source/tclhash.c:313-328 | finds the one live table of that name, or there is none |
| TableList.Tables.Add | source/tclhash.c:261-295 | returns the live table of that name or puts a new one where the order stays intact; no other live table changes |
| TableList.Tables.Delete | source/tclhash.c:297-311 | the table at that address is no longer live, the others are |
| TableList.Tables.Collect | source/tclhash.c:112-126 | unlinking marked tables changes no answer |
| Escape.StrEscape | source/misc.c:1461-1492 | the doubling rule always leaves room for three characters and the terminator, and the buffer holds the escaped text |
| Escape.StrchrUnescape | source/misc.c:1510-1533 | in place, for whatever memory the scan stays inside: the field is decoded and terminated, what stands behind its end is untouched, and the result points there or is NULL |
| Escape.EscapedOne | source/misc.c:1461-1492 | a divider or escape character goes out as the escape character and two small hexadecimal digits, any other as it is |
| Escape.EscapedJoin | source/misc.c:1461-1492 | and a text piece by piece |
| Escape.Decoded | source/misc.c:1517-1521 | what an escape stands for: two digits their number, one digit that digit, a blank or a sign as strtol has it, anything else 0 |
| Escape.SameBehind | source/misc.c:1510-1533 | so the fields behind are taken from the rewritten memory as from the original |
| Escape.EndsInside | source/misc.c:1510-1533 | the scan of a text stays within it exactly when every escape before its first divider has its two characters |
| Escape.CutShort | source/misc.c:1510-1533 | the shortest texts for which it does not, with no digit and with one, and where the scan then ends |
| Escape.TakeAll | source/misc.c:1510-1533 | taking fields until there is none leaves each where it began, and together they are the fields of the memory as it was |
| Escape.FieldRoundTrip | source/misc.c:1461-1533 | an escaped field that ends at a divider or a terminator is read back as the field, wherever it stands |
| Escape.RoundTripCondition | source/misc.c:1461-1533 | all lists of fields survive, wherever they stand, exactly when divider and escape character differ |
| Flags.Flag2Str | source/flags.c:443-463 | the shifting loops print a letter for each of the 26 bits of either word, or a dash |
| Flags.Bot2Str | source/flags.c:465-485 | 21 bits as letters and ten as digits, or a dash |
| Flags.FlagLetters | source/flags.c:443-463 | which letter appears for which bit, and a dash exactly where there is none |
| Flags.BotLetters | source/flags.c:465-485 | the same for bot flags, with their digits |
| Flags.TextOrder | source/flags.c:443-485 | letters come in ascending order, small ones before capitals or digits |
| Flags.BuildFlags | source/flags.c:487-528 | which parts are printed, with which separator, and the length returned |
| Flags.TextParts | source/flags.c:487-528 | the global part or else the bot part, the separator that tells AND from OR, the channel part |
| Flags.FlagRecord.BreakDownFlags | source/flags.c:344-441 | the character loop over modes is the scan the round trip is about |
| Flags.OnePartRead | source/flags.c:344-441 | reading a text of one part sets a flag exactly if it is valid and its character is there, for each of the words |
| Flags.WhatSets | source/flags.c:389-423 | and which characters are a flag's, by kind of record |
| Flags.SeparatorMoves | source/flags.c:373-387 | which part a separator leads to, and when it says AND or OR |
| Flags.ValidGlobal | source/flags.h:58-60 | which letters are valid of global flags, |
| Flags.ValidChan | source/flags.h:58-60 | of channel flags, |
| Flags.ValidBot | source/flags.h:58-60 | and of bot flags |
| Flags.PastTheEnd | source/flags.c:383-384 | the scan is cut short exactly for records that select only global flags and texts with two separators |
| Flags.TwoSeparators | source/flags.c:383-384 | the text with flags a, b and c and a bar between them is one for exactly those records |
| Flags.ScanLetters | source/flags.c:344-441 | scanning the printed letters of a word sets exactly its bits |
| Flags.FlagRoundTrip | source/flags.c:344-528 | every kind of record, printed and read back, keeps what it selects masked by the valid bits |
| Flags.SelectedSurvive | source/flags.c:344-528 | all selected fields survive exactly unless global and bot flags are both selected and there are bot flags |
| Flags.AndSurvives | source/flags.c:506-510 | AND comes back as AND exactly for records with a global and a channel part |

## Left out

- Case folding of bot names: names are compared as they stand, as if already folded.
- Timers, away and idle state, traffic counters, user records, logging and everything printed on a console.
- Tcl callbacks and trigger procedures: taken not to change the tables they are called from. The user flags a handler asks for (leaf) are inputs of its step.
- Pre-NEAT_BOTNET peers and BOT_ISOLATE: every peer speaks the token protocol and none is isolated.
- The away and idle lines of the burst, and the text attached to loss reports.
- PartyReplay.LinkOverTheWire: for users whose line fits the buffer, with a socket number, and with bot and nick that are words and a bot's name that does not begin with an exclamation mark.
- Botnet.Botnet.DumpParty: takes the bot's own users as given.
- Unlink requests and rejects from a peer (`ul`, `r`; source/botcmd.c:533-600, source/botcmd.c:842-900), which can take down another neighbour's link or a single entry: as events they are a hang-up of that link, or `Links.RemovedAlone`, and a peer that sends them is outside `Abort.AbortedBurst`.
- A `bye` from a peer and a wrong name given in `tb` (source/botcmd.c:285-305, source/botcmd.c:905-921) are the hang-up event.
- The `*` form of `botunlink`, which empties both tables.
- Connections other than bot links, which appear only as entries of `dcc` that hold no running link; sockets themselves.
- Memory that cannot be allocated, and string lengths near the limits of a C `int`.
- Botnet.Botnet.BotNlinked: takes a flag that is not NUL, which a C string cannot hold in that place; likewise the join handler.
- Network.Flooded: the bots' tables stay as they are while the message travels; the same holds for a routed message.
- Wire.SimpleSprintf: `%d` and `%i` of the most negative number, whose negation does not fit an `int`.
- Wire.Base64ToInt: a byte above 127 decodes as 0, as the table says; where `char` is signed the C code looks in front of the table.
- Membership.ReadJoin: decimal numbers of old peers are not read.
- `_wild_match_per`, `mask_match` and the cron fields: what they compute is not what their names suggest, and nothing simple to compare them with exists.
- MaskAddr.MaskAddr: the text is built as a value; the size of the caller's buffer is not modelled.
- AddrMatch.AddrMatch: the two fixed buffers are values cut at UHOSTLEN - 1; cutting them at the sign is taking parts of them.
- Cidr.CidrMatch: the conversion of address text is a parameter; the build without IPv6, which only knows four bytes, is not modelled.
- `atoi` of numbers beyond an `int`.
- MaskOwner.OwnerAccepted: for addresses without a second at sign, addresses and masks shorter than the buffers, and a conversion that takes no text with a slash for an address.
- BlockCompare.BlockExactness: for a conversion that takes texts with colons for one family and those without for the other, and none with a wildcard.
- MaskCompare.ComparisonExactness: for masks at least two characters shorter than the buffers, so that no example is cut; a plain mask over a block is only shown to fail.
- BindCode.BindList.Check: the stackable path and the masks matched by wildcard, which run several commands and never move a mask.
- The TBM_DELETED mark of a mask: it is looked at but never set.
- Escape.StrchrUnescape: requires that the scan does not leave the memory, which the C code takes for granted.
- Escape.StrEscape: divider and escape character are ASCII; any other would be printed with more than two digits.
- Flags.BuildFlags: without a record of flags to take away; with one, the channel part prints the wrong word (source/flags.c:516-518). The output is a value.
- Flags.FlagRecord.BreakDownFlags: likewise without the record for `-`, and stopping where the pointer would pass the end of an empty literal.
