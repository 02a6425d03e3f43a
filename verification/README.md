# Verified models of the Ren-C extensions

Dafny models of six algorithms of Ren-C's extension layer, and what they keep, prove and
fail to do. Each group of files follows one source file.

* **GIF** (`GifStream`, `GifLzw`, `GifDecoder`, `GifSteps`, `GifInterlace`, `GifImage`,
  `GifRoundTrip`): the LZW decoder with its bit reader over sub-blocks, dictionary, pixel
  stack and interlace walk. The encoder of Appendix F of the GIF89a specification is the
  specification: any choice of table strings and clear points, and a greedy one. The
  decoder's table is proved to stay one string behind the encoder's, its code widths equal,
  its chains to go down. It paints every pixel of every encoding, in Appendix E order if
  interlaced, exactly if the encoder clears before it uses a full table, and ends behind the
  sub-block with the last bit of the last code it needs. Two findings: the
  interlace walk leaves images of 2, 3 or 4 rows, and legal streams that go on with a full
  table stop the decoder.
* **GOB** (`GobForest`, `GobOps`, `GobTree`, `GobMap`): gobs as objects with parent pointers
  and panes. The in-place operations are proved against functions on snapshots of the links,
  about which the theorems are stated: what an insertion does, exactly when it does what it
  is for, exactly when it keeps panes and parents in agreement (not for a gob given twice, a
  finding) and the forest, and that every run of INSERT, APPEND, REMOVE and
  CLEAR keeps panes and parent pointers in agreement. `GobMap` maps points down the tree and
  back up: the round trip holds exactly if no gob on the way is a window.
* **Await handshake** (`AwaitHandshake`): the two threads as a state machine with an ownerless
  mutex. Over every interleaving: no signal is lost, neither thread waits for the mutex in
  vain, no assertion of the code fails, each call returns what its native said once and in
  order, an awaiter can be signaled in its body, before the wait and in it, and a call ends within a fixed number of steps once its native has spoken.
* **Paths** (`PathLocal`, `PathResolve`, `PathNormal`, `PathRebol`, `PathRoundTrip`,
  `PathSecondPass`): the two
  path converters. The in-place editing of `.` and `..` is proved to be a walk over
  directories for every path and both separators. A name directly after a doubled slash is
  copied even if it is a dot (a finding): it is proved exactly when the result is still what
  the path means, when it is normalised, and when a second pass changes nothing. The two
  directions undo each other exactly on clean paths, on Windows also on some after a drive.
  A directory gets two final slashes exactly if it ends in certain separators, the root of a
  drive among them (a finding). Going back a directory sets the size in bytes right exactly
  if the character before the separator is a single byte; otherwise the text is cut within a
  character (a finding).
* **BMP** (`BmpHeader`, `BmpMaps`, `BmpRows`, `BmpRuns`, `BmpImage`, `BmpEncode`, `BmpCodec`,
  `BmpFormat`): the header mapper, all row formats, the bottom-up loops, and that decoding an encoded image
  gives it back opaque. The test of a value against the colour table lets one equal to the
  number of colours pass (a finding): each row is an error, or reads behind the table, exactly
  if the first value without an entry says so.
* **FFI** (`FfiScalar`, `FfiStruct`, `FfiStore`, `FfiMemory`): flat struct layout, setting and getting
  fields, comparing layouts, and the store of call arguments. An int16 field reads back
  exactly if it fits into an int8, and an array set from a block takes its items from the
  block's head, wherever the block stands (findings).

`Bits` and `Wrappers` hold the arithmetic of bytes and powers of two and an option type.
Line numbers in comments are those of the file that the module's first comment names.
Methods that change objects or arrays are proved against functions on values, and what these
functions are is stated once more in plain terms, by byte, index, coordinate or action. Ghost
parameters (`pixels`, `codes`, `rows`, `runs`, `world`) name what an input stands for; the
code does not see them.

## Model

| member | source | states |
|---|---|---|
| GifStream.SubBlocksRoundTrip | extensions/gif/mod-gif.c:119-132 | Reading length-prefixed sub-blocks gives back the bytes that were cut into them, whatever surrounds them (section 15 of GIF89a) |
| GifStream.BlockEndIs | extensions/gif/mod-gif.c:119-132 | If the n-th data byte is in the j-th sub-block, reading up to it ends where that sub-block ends |
| GifStream.WidthUnique | extensions/gif/mod-gif.c:99-100 | The code width of Appendix F is the one number that is wide enough, capped at 12, and not wider than needed |
| GifStream.PackCodesVal | extensions/gif/mod-gif.c:128-137 | The packer's bytes spell the codes at their widths, first code in the low bits |
| GifStream.OpenBlock | extensions/gif/mod-gif.c:121-127 | Opening a sub-block keeps what the reader's registers and the unread input spell |
| GifStream.ShiftIn | extensions/gif/mod-gif.c:129-131 | Adding a byte above the pending bits keeps the value spelled, with at most 19 bits pending, and consumes input |
| GifStream.TakeCode | extensions/gif/mod-gif.c:135-137 | Taking the low bits yields exactly the next packed code and leaves the rest |
| GifLzw.CodesDeterminePixels | extensions/gif/mod-gif.c:139-179 | An encoding determines its pixels: no stream encodes two images of one size |
| GifLzw.CompressEncodes | extensions/gif/mod-gif.c:139-179 | The greedy compressor's codes are an encoding, clear in time and fit their widths |
| GifLzw.EncodeEncodes | extensions/gif/mod-gif.c:139-179 | So is its whole output, from the first clear code on |
| GifLzw.UsedAtMost | extensions/gif/mod-gif.c:134-137 | The codes that the pixels take have no more bits than the stream |
| GifLzw.StrLength | extensions/gif/mod-gif.c:162-165 | The string of entry k has at least one and at most k - clear pixels, so a chain of links ends and fits the stack |
| GifLzw.FollowsInit | extensions/gif/mod-gif.c:102-106 | A fresh or cleared dictionary follows the encoder's initial table |
| GifLzw.FollowsFirst | extensions/gif/mod-gif.c:151-156 | The first code after a clear is a literal, and afterwards the dictionary is one string behind |
| GifLzw.CodeString | extensions/gif/mod-gif.c:157-166 | Every later code is known or is the one being built, whose string is the previous one and its own first pixel |
| GifLzw.FollowsNext | extensions/gif/mod-gif.c:168-178 | Recording previous code and first pixel keeps the dictionary one string behind |
| GifDecoder.GrowthAgrees | extensions/gif/mod-gif.c:174-177 | The growth test keeps the decoder's code width equal to the encoder's at every entry |
| GifDecoder.FirstWidths | extensions/gif/mod-gif.c:99 | Before and after the first code the width is data_size + 1, for data sizes 2 to 8 |
| GifSteps.StepFollows | extensions/gif/mod-gif.c:139-178 | For data sizes 2 to 8 a code makes the decoder stack the string that the encoder sent, with table and width following the encoder's |
| GifSteps.OneBitMisread | extensions/gif/mod-gif.c:134-178 | With data size 1 they do not: for a stream that spells three black pixels the same steps give two black ones and a white one |
| GifDecoder.LzwDecoder.Bounds | extensions/gif/mod-gif.c:107-179 | In every reachable state: datum < 2^bits, bits <= 19, the mask is 2^code_size - 1, code_size <= 12, clear + 2 <= available <= 2^code_size and 4096 |
| GifDecoder.LzwDecoder.EntryBounds | extensions/gif/mod-gif.c:162-173 | And for every entry k: prefix[k] < k and never the clear or end code, and its string fits the stack |
| GifDecoder.LzwDecoder.constructor | extensions/gif/mod-gif.c:88-112 | The initial registers and tables satisfy the invariant for every conforming stream |
| GifDecoder.LzwDecoder.ReadByte | extensions/gif/mod-gif.c:119-132 | Keeps what is spelled and consumes input |
| GifDecoder.LzwDecoder.TakeBits | extensions/gif/mod-gif.c:134-137 | Returns exactly the encoder's next code |
| GifDecoder.LzwDecoder.ClearTables | extensions/gif/mod-gif.c:143-149 | Returns to the encoder's initial table and width |
| GifDecoder.LzwDecoder.PushChain | extensions/gif/mod-gif.c:162-171 | Pushes exactly the string of a code, last pixel first, without passing the stack's 4096 slots |
| GifDecoder.LzwDecoder.RecordString | extensions/gif/mod-gif.c:168-178 | Table, width and previous code follow the encoder's next table |
| GifDecoder.LzwDecoder.ReadCode | extensions/gif/mod-gif.c:134-178 | One code: stacked and outstanding pixels together stay the same; stops only if the encoder did not clear in time |
| GifDecoder.LzwDecoder.Turn | extensions/gif/mod-gif.c:117-179 | One turn of the loop keeps the invariant and the pixels to come, and makes progress |
| GifInterlace.AppendixEPermutes | extensions/gif/mod-gif.c:37-38 | The four passes of Appendix E visit each row exactly once, for every height |
| GifInterlace.AppendixEOrder | extensions/gif/mod-gif.c:37-38 | Rows come in four passes, each from the top: multiples of eight, the other multiples of four, the other even rows, the odd ones |
| GifInterlace.WalkIsAppendixE | extensions/gif/mod-gif.c:188-194 | The walk is in Appendix E order exactly if the height is not 2, 3 or 4; for these its second row is row 4, outside the image |
| GifInterlace.SafeWalk | extensions/gif/mod-gif.c:111-114 | For the other heights the walk is always in one of the four passes when a row starts |
| GifImage.PositionInjective | extensions/gif/mod-gif.c:180-194 | No two arriving pixels go to the same place |
| GifImage.PositionOnto | extensions/gif/mod-gif.c:180-194 | Every place of the image gets a pixel |
| GifImage.PixelGoesTo | extensions/gif/mod-gif.c:180-194 | Pixel x of the y-th row to arrive goes to row y, or, interlaced, to the y-th row of Appendix E |
| GifImage.PaintedBytes | extensions/gif/mod-gif.c:181-185 | A painted pixel is four bytes: red, green and blue from the colour table, and 255 |
| GifImage.WritePixel | extensions/gif/mod-gif.c:181-185 | Writes one RGBA pixel and nothing else |
| GifImage.DecodeRow | extensions/gif/mod-gif.c:115-187 | Paints the next w pixels in a row |
| GifImage.DecodeLzw | extensions/gif/mod-gif.c:77-199 | Paints every pixel of every conforming image of less than 2^31 bytes in its place; leaves early exactly if the encoder does not clear in time; otherwise ends one byte behind the sub-block that holds the last bit of the codes used |
| GifRoundTrip.PackedConforms | extensions/gif/mod-gif.c:94-137 | Any encoding, packed and cut into sub-blocks in any way, is a conforming stream |
| GifRoundTrip.DecodeEncoded | extensions/gif/mod-gif.c:77-199 | Decoding the encoding of an image paints exactly the image, and ends behind the sub-block with the last code used: behind the terminator if that is the last one |
| GifRoundTrip.StreamEndsAt | extensions/gif/mod-gif.c:196 | However the codes are cut, the image ends one byte behind the sub-block that holds the last byte they take; if this is the last one, where the bytes after the image start |
| GifRoundTrip.OnePixel | extensions/gif/mod-gif.c:77-199 | The stream 2, 2, 0x44, 1, 0 is one pixel of colour 0 and ends at index 5, behind the terminator |
| GifRoundTrip.OrderDoesNotMatter | extensions/gif/mod-gif.c:188-194 | Interlaced and sequential decoding of the same image give the same bytes |
| GifRoundTrip.LiteralRun | extensions/gif/mod-gif.c:169-170 | A run sent as literal codes is an encoding, and clears in time exactly while the table has room |
| GifRoundTrip.FullTableStops | extensions/gif/mod-gif.c:169-170 | 4000 pixels sent without a clear code are a legal encoding on which the decoder stops half-way |
| GobForest.MoveKeepsForest | extensions/gob/t-gob.c:203-276 | Giving gobs a new parent keeps the forest exactly if none of them is that parent or above it |
| GobForest.InPaneIffParent | extensions/gob/t-gob.c:166-181 | Where panes and parents agree, a gob is in a pane exactly if its parent pointer names the owner, and then once |
| GobForest.DetachIsDetachAll | extensions/gob/t-gob.c:166-181 | Deleting a gob at its index is taking it out of all panes |
| GobForest.ScanIs | extensions/gob/t-gob.c:203-233 | The first pass of an insertion detaches the gobs before the one that stops it and lowers the index by those that stood before it |
| GobOps.InsertMoves | extensions/gob/t-gob.c:191-277 | An insertion that nothing stops takes the gobs out of every pane and puts them side by side at the adjusted index |
| GobOps.InsertStops | extensions/gob/t-gob.c:217-231 | One that is stopped has detached the gobs before the one that stopped it, and nothing else |
| GobOps.InsertGivesWanted | extensions/gob/t-gob.c:217-223 | The pane ends up as wanted exactly if no gob stands just before the insertion point when its turn comes, or they already stood in place |
| GobOps.InsertLosesGob | extensions/gob/t-gob.c:217-223 | For one, x and b inserted at index 2 of a, b, c: x is taken out of its pane and put nowhere |
| GobOps.InsertOne | extensions/gob/t-gob.c:191-277 | Inserting one gob always gives the wanted pane |
| GobOps.RemoveDetaches | extensions/gob/t-gob.c:285-294 | Removing a part detaches exactly the gobs of the part |
| GobOps.RemoveIs | extensions/gob/t-gob.c:1000-1010 | REMOVE leaves the gobs before the index and those behind the part, or none if it reaches the end; exactly those between lose their parents, and every other pane and parent is kept |
| GobOps.RemoveBehind | extensions/gob/t-gob.c:994-1010 | Behind the last gob REMOVE and CLEAR do nothing |
| GobOps.ClearIs | extensions/gob/t-gob.c:994-998 | CLEAR leaves the gobs before the index, and the others lose their parents; nothing else changes |
| GobOps.InsertNew | extensions/gob/t-gob.c:961-992 | INSERT puts gobs without a parent in order between the gobs before the index and the others, APPEND behind all; the target is their parent, and nothing else changes |
| GobOps.FirstDoesNotStop | extensions/gob/t-gob.c:217-223 | Inserting the first gob and another right behind the first is not stopped |
| GobOps.InsertKeeps | extensions/gob/t-gob.c:191-277 | Inserting distinct gobs keeps panes and parents in agreement, and the forest exactly if it is stopped or none is the target or above it |
| GobOps.InsertUnderChild | extensions/gob/t-gob.c:236-276 | A gob inserted into the pane of its own child is no longer part of a forest; nothing in the code refuses it |
| GobOps.InsertAgrees | extensions/gob/t-gob.c:191-277 | Whatever is given, panes and parents stay in agreement exactly if the insertion is stopped or the gobs are distinct |
| GobOps.InsertAnyIs | extensions/gob/t-gob.c:191-277 | Then it is the insertion described above |
| GobOps.InsertTwice | extensions/gob/t-gob.c:264-265 | A gob given twice is refused half-way, with panes and parents in disagreement |
| GobOps.StepKeeps | extensions/gob/t-gob.c:961-1010 | Each legal action keeps agreement and forest |
| GobOps.EveryRunKeeps | extensions/gob/t-gob.c:961-1010 | So does every run of them from new gobs |
| GobTree.FindGob | extensions/gob/t-gob.c:143-157 | The first index of a gob in a pane |
| GobTree.DetachGob | extensions/gob/t-gob.c:166-181 | In place what detaching is on the links |
| GobTree.RemoveGobs | extensions/gob/t-gob.c:285-294 | In place what removing is on the links |
| GobTree.TakeOut | extensions/gob/t-gob.c:208-234 | The first pass of Insert_Gobs, with its index, early return and error |
| GobTree.MakeRoom | extensions/gob/t-gob.c:238-256 | The pane with new cells at the index; every other cell is kept |
| GobTree.PutIn | extensions/gob/t-gob.c:236-276 | The second pass: the gobs in the pane, their parents set; or the error at a gob that has been given before, with the cells from there on as they were |
| GobTree.InsertGobs | extensions/gob/t-gob.c:191-277 | In place what inserting is on the links, for any arguments, with the same outcome |
| GobTree.Insert | extensions/gob/t-gob.c:961-992 | INSERT and APPEND are that, and with distinct gobs steps of the runs above |
| GobTree.Remove | extensions/gob/t-gob.c:1000-1010 | REMOVE is such a step; with a negative part it removes gobs behind the pane exactly if the part is no longer than the index, and otherwise clears from the index on |
| GobTree.Clear | extensions/gob/t-gob.c:994-998 | CLEAR is such a step |
| GobMap.MapGobInner | extensions/gob/mod-gob.c:93-128 | On the way down each gob is the last child of the one before that the point is on, in plain coordinates; no child of the gob where it ends is under the local point, unless 1000 children were entered |
| GobMap.DescentIsTopmost | extensions/gob/mod-gob.c:101-122 | The same of the descent from any gob and depth: at each level no later sibling is under the point, and at its end no child is, if the depth was not used up |
| GobMap.DeepestContains | extensions/gob/mod-gob.c:101-122 | If that is not the start gob, it contains the point |
| GobMap.MapReverse | extensions/gob/mod-gob.c:155-167 | The climb to a root or window, adding offsets |
| GobMap.DownAndUp | extensions/gob/mod-gob.c:93-167 | Down from a root and up again gives the root and the point back exactly if no gob on the way is a window |
| AwaitHandshake.StepKeeps | extensions/javascript/mod-javascript.c:645-973 | Every step of either thread keeps the invariant of the handshake |
| AwaitHandshake.EveryRunKeeps | extensions/javascript/mod-javascript.c:645-973 | It holds in every state of every interleaving |
| AwaitHandshake.EntersBody | extensions/javascript/mod-javascript.c:778-882 | From every state where the promise's code runs a call gets into its body; without an answer the body can end exactly if it is an awaiter's |
| AwaitHandshake.SignaledInBody | extensions/javascript/mod-javascript.c:889-899 | Each outcome can come in the body: the worker does not sleep and its caller gets that outcome |
| AwaitHandshake.SignaledBeforeWait | extensions/javascript/mod-javascript.c:748-762 | Or between body and wait: the signal waits for the mutex until the worker sleeps, wakes it, and its caller gets the outcome |
| AwaitHandshake.SignaledInWait | extensions/javascript/mod-javascript.c:893-896 | Or after the wait began: the worker sleeps with nothing said and the mutex free, is woken, and its caller gets the outcome |
| AwaitHandshake.WorkersSleep | extensions/javascript/mod-javascript.c:873-973 | So some run from the start has a worker asleep on a native that runs, and ends with the answer |
| AwaitHandshake.NoLostSignal | extensions/javascript/mod-javascript.c:889-897 | The worker never sleeps on a native that has spoken, unless main holds the mutex and is about to notify it |
| AwaitHandshake.NobodyWaitsInVain | extensions/javascript/mod-javascript.c:748-762 | Whenever a thread waits for the mutex the other one's next step releases it; outside a dispatch it is free |
| AwaitHandshake.OneHolder | extensions/javascript/mod-javascript.c:652-665 | The mutex is locked exactly while one side answers for it, and never both |
| AwaitHandshake.NativeStateOrder | extensions/javascript/mod-javascript.c:333-338 | The native state only goes from none to running to resolved or rejected and back to none |
| AwaitHandshake.AssertionsNeverFail | extensions/javascript/mod-javascript.c:622-633 | No assertion of the protocol's code fails and no table lookup misses |
| AwaitHandshake.EachAnswerOnce | extensions/javascript/mod-javascript.c:913-973 | Each call returns what its native said, once and in order |
| AwaitHandshake.StepsLeft | extensions/javascript/mod-javascript.c:873-973 | Every step within a call lowers a measure of the steps left |
| AwaitHandshake.SomebodyMoves | extensions/javascript/mod-javascript.c:873-910 | Within a call some thread can move, unless the native has yet to speak; then the worker sleeps with the mutex free, or the body runs |
| AwaitHandshake.CallsEnd | extensions/javascript/mod-javascript.c:873-973 | No run stays in a call for more than 40 steps |
| PathLocal.MoldFileToLocal | extensions/filesystem/mod-filesystem.c:197-414 | Computes the text function of the path, for every path and current directory, on POSIX and Windows, exactly if every cut on the way is right in characters and bytes; /NO-TAIL-SLASH takes one final separator off if there is one, and then /WILD puts one `*` on |
| PathLocal.PutHead | extensions/filesystem/mod-filesystem.c:203-263 | Drive, share, root or current directory, and where the first segment starts |
| PathLocal.OneSegment | extensions/filesystem/mod-filesystem.c:269-398 | One turn of the outer loop keeps the meaning of text so far and path to come |
| PathLocal.BackOneDir | extensions/filesystem/mod-filesystem.c:305-338 | Cuts the text at the separator before the last one and ends it in a separator; the size it sets is that of the text exactly if the cut is right |
| PathLocal.CutSizeIs | extensions/filesystem/mod-filesystem.c:325-333 | The size set is that of the text left exactly if the character before the cut is a single byte |
| PathResolve.BackUpIsUp | extensions/filesystem/mod-filesystem.c:305-338 | Cutting the text is going up one directory, and stays at a root |
| PathResolve.UpCutsRight | extensions/filesystem/mod-filesystem.c:305-338 | For a directory: exactly if the name above ends in a single byte; the separator that the code asserts is always there |
| PathResolve.LoopsResolve | extensions/filesystem/mod-filesystem.c:269-398 | The loops follow the names of the path from directory to directory; a name directly after a doubled slash is literal |
| PathResolve.LoopsSqueeze | extensions/filesystem/mod-filesystem.c:355-388 | Without FULL they only collapse slashes, drop them after a separator, and turn the others into separators |
| PathNormal.FullResolves | extensions/filesystem/mod-filesystem.c:197-398 | So for every path with FULL, from a root, a drive, a share or the current directory |
| PathNormal.FullCutsRight | extensions/filesystem/mod-filesystem.c:197-398 | With FULL every cut is right exactly if it is at each `..` that is obeyed |
| PathNormal.AsciiCutsRight | extensions/filesystem/mod-filesystem.c:305-338 | In particular for ASCII paths and directories, with nothing or a single byte before the text |
| PathNormal.CutWithinCharacter | extensions/filesystem/mod-filesystem.c:325-333 | From a directory named é, `b/..` cuts the text to 2 bytes where 3 are left |
| PathNormal.FullIsNormal | extensions/filesystem/mod-filesystem.c:271-388 | The result is the plain meaning (skip empty and `.`, pop on `..`) exactly if the last name is no dot after a doubled slash, and the path goes equally deep, and above its root alike, with such dots copied as with them obeyed |
| PathNormal.PlainPathsAreNormalised | extensions/filesystem/mod-filesystem.c:271-349 | In particular on POSIX for every path without doubled slashes |
| PathNormal.SameDirectory | extensions/filesystem/mod-filesystem.c:305-388 | The directories that the path means are always among those put out, so the two are equal exactly if their numbers are |
| PathNormal.WalkStaysPlain | extensions/filesystem/mod-filesystem.c:305-338 | A walk that obeys every dot never leaves the root and never enters a dot name |
| PathNormal.FullIsNormalised | extensions/filesystem/mod-filesystem.c:265-388 | The result starts at the root and has no `.`, `..` or empty name but perhaps an empty last one, exactly if every dot after a doubled slash is backed out of by the names after it |
| PathNormal.NoTailSlash | extensions/filesystem/mod-filesystem.c:403-407 | Without its final slash the result with FULL ends in no slash, and is empty exactly for the root |
| PathNormal.FullIsNormalisedUnder | extensions/filesystem/mod-filesystem.c:197-388 | The same for drives, shares and the current directory, on POSIX and Windows: exactly under that condition and if the root is not lost |
| PathNormal.NormalisedIsStable | extensions/filesystem/mod-filesystem.c:265-388 | Any such path stays as it is, wherever the current directory is |
| PathNormal.FullIsIdempotent | extensions/filesystem/mod-filesystem.c:265-388 | Normalising twice changes nothing exactly under the same condition |
| PathNormal.SecondPassNormalises | extensions/filesystem/mod-filesystem.c:265-388 | Whatever the path, the result of a second pass is normalised |
| PathSecondPass.DriveSecondPass | extensions/filesystem/mod-filesystem.c:92-398 | On Windows the result for a drive stays as it is, taken to its Rebol form and back with FULL, exactly under that condition and if the drive is kept, or if only a backslash is left |
| PathNormal.DoubledSlashHidesDot | extensions/filesystem/mod-filesystem.c:371-381 | `//.` becomes `/.`, which becomes `/` |
| PathNormal.DriveKept | extensions/filesystem/mod-filesystem.c:305-338 | On Windows the drive is kept exactly if no `..` goes above its root; otherwise it is lost |
| PathNormal.PosixSqueezes | extensions/filesystem/mod-filesystem.c:355-388 | On POSIX without FULL a path stays as it is exactly if it has no doubled slash |
| PathRebol.Pass | extensions/filesystem/mod-filesystem.c:104-163 | One pass: restarts, fails or ends exactly by where the first colon and slash are |
| PathRebol.ToRebolPath | extensions/filesystem/mod-filesystem.c:92-172 | The converted path or the colon error; it restarts at most once |
| PathRebol.RunIsOneSlash | extensions/filesystem/mod-filesystem.c:151-162 | A run of slashes and backslashes between two texts becomes one slash |
| PathRebol.NoSlashSame | extensions/filesystem/mod-filesystem.c:159-162 | A text with neither stays as it is |
| PathRebol.VolumeIs | extensions/filesystem/mod-filesystem.c:115-150 | `vol:` becomes `/vol/:`, `vol:\` becomes `/vol/`, and `vol:rest` and `vol:\rest` become `/vol/` and the rest converted |
| PathRebol.BadColonWhen | extensions/filesystem/mod-filesystem.c:115-120 | The error comes exactly if a separator stands before the first colon, or another colon behind the character that is copied after it |
| PathRebol.DirectoryAdds | extensions/filesystem/mod-filesystem.c:165-169 | A directory is converted like a file, with at most a slash more |
| PathRoundTrip.RebolSame | extensions/filesystem/mod-filesystem.c:92-172 | A local path stays as it is exactly if it has no colon, backslash or doubled slash |
| PathRoundTrip.DirectoryEndsInSlash | extensions/filesystem/mod-filesystem.c:134-169 | A directory always ends in a slash; in two exactly if it ends in two separators with a backslash last, or has only separators after a colon, or after a colon and a separator |
| PathRoundTrip.DriveRootGetsTwo | extensions/filesystem/mod-filesystem.c:134-169 | The directories `C:\` and `a\\` become `/C//` and `a//` |
| PathRoundTrip.CleanDirectory | extensions/filesystem/mod-filesystem.c:165-169 | A clean one gets a final slash exactly if it has none |
| PathRoundTrip.PosixThereAndBack | extensions/filesystem/mod-filesystem.c:92-398 | A file path comes back from its local form exactly if it is clean |
| PathRoundTrip.PosixBackAndThere | extensions/filesystem/mod-filesystem.c:92-398 | A local path comes back from its Rebol form exactly if it is clean |
| PathRoundTrip.LocalIsWindowsForm | extensions/filesystem/mod-filesystem.c:221-247 | `/c/rest` is a drive, `/share/rest` a share, any other clean path has its slashes turned |
| PathRoundTrip.WindowsThereAndBack | extensions/filesystem/mod-filesystem.c:92-398 | On Windows a path comes back from its local form exactly if it is clean, or is a drive path whose first character is any but a slash, the others clean and losing no slash |
| PathRoundTrip.WindowsBackAndThere | extensions/filesystem/mod-filesystem.c:92-398 | A local path comes back from its Rebol form exactly if its separators are single backslashes, and it is a separated drive, a share of more than one letter or alone, a lone backslash, or starts with neither |
| PathRoundTrip.DriveThereAndBack | extensions/filesystem/mod-filesystem.c:115-150 | X:\rest goes to /X/rest and back |
| BmpHeader.SlotsIncrease | extensions/bmp/mod-bmp.c:158-185 | The struct bytes of a format are different and in order, padding skipped |
| BmpHeader.FieldAt | extensions/bmp/mod-bmp.c:158-185 | The bytes of a field are side by side in the struct, right behind the fields before it; an aligned long is at the next multiple of four |
| BmpHeader.MapBytes | extensions/bmp/mod-bmp.c:158-213 | Each packed byte goes to its slot and nothing else changes; the cursor moves by the sizes of the fields |
| BmpHeader.UnmapBytes | extensions/bmp/mod-bmp.c:215-270 | The packed bytes are those of the slots, in order; the cursor moves as much |
| BmpHeader.MapUndoesUnmap | extensions/bmp/mod-bmp.c:158-270 | For every format, mapping what was unmapped gives every field byte back and leaves the padding |
| BmpHeader.UnmapUndoesMap | extensions/bmp/mod-bmp.c:158-270 | And unmapping what was mapped gives the bytes back |
| BmpMaps.FileMap | extensions/bmp/mod-bmp.c:139 | The file header takes 14 bytes in a file; in the struct its longs start after a gap if longs are aligned |
| BmpMaps.InfoMap | extensions/bmp/mod-bmp.c:102 | The info header is packed in the struct too, 40 bytes |
| BmpRows.RowEnds | extensions/bmp/mod-bmp.c:430-445 | A row of four or eight bits is drawn exactly if all values have entries, an error exactly if one above the number of colours comes before any equal to it, and reads behind the table exactly if one equal to it comes first |
| BmpRows.OneBehindIsRead | extensions/bmp/mod-bmp.c:442-448 | With 16 colours, pixel 16 reads behind the table and pixel 17 is an error |
| BmpRows.BitsAre | extensions/bmp/mod-bmp.c:405-420 | The j-th one-bit value is bit 7 - j mod 8 of byte j / 8 |
| BmpRows.NibblesAre | extensions/bmp/mod-bmp.c:424-429 | The high half of a byte comes before the low one |
| BmpRows.LookedAt | extensions/bmp/mod-bmp.c:431-437 | A drawn pixel has the red, green and blue of its entry, and alpha 255 |
| BmpRows.TriplesAt | extensions/bmp/mod-bmp.c:456-465 | Of a 24-bit pixel blue comes first, then green, then red; alpha is 255 |
| BmpRows.Row1 | extensions/bmp/mod-bmp.c:405-420 | One-bit rows, high bit first: drawn and the stride taken exactly if every value has an entry, else read behind the table |
| BmpRows.Row4 | extensions/bmp/mod-bmp.c:422-440 | Four-bit rows, high nibble first; ends in each of the three ways exactly as above |
| BmpRows.Row8 | extensions/bmp/mod-bmp.c:442-454 | Eight-bit rows; ends in each of the three ways exactly as above |
| BmpRows.Row24 | extensions/bmp/mod-bmp.c:456-465 | 24-bit rows: blue, green, red become an opaque pixel |
| BmpRows.SkipPadding | extensions/bmp/mod-bmp.c:470-471 | Skips to a multiple of four bytes |
| BmpRuns.PutLiteral | extensions/bmp/mod-bmp.c:486-502 | A literal run is written value by value if all have entries; its padding to an even number of bytes is skipped |
| BmpRuns.PutRepeat | extensions/bmp/mod-bmp.c:505-518 | A repeated byte, or its two nibbles in turn, is written count times if all have entries |
| BmpRuns.RunRow | extensions/bmp/mod-bmp.c:474-557 | Every row of runs is written as their plain expansion and consumed exactly; it reads behind the table exactly if some value has no entry, and is an error exactly if not and it ends at a delta marker |
| BmpRuns.RunValuesAre | extensions/bmp/mod-bmp.c:486-518 | A repeated byte gives its high and low half in turn, or itself; values spelled out are those of their bytes |
| BmpImage.DecodeRow | extensions/bmp/mod-bmp.c:402-561 | Each format writes the line that the row means, reports the error that it is, or reads behind the table |
| BmpImage.RunsOfFour | extensions/bmp/mod-bmp.c:474-521 | Compression 2: the bytes 3, 0x1F, 0, 5, 0x12, 0x34, 0x50, one to skip, 0, 0 are the pixels 1 15 1 1 2 3 4 5 |
| BmpImage.RunsOfEight | extensions/bmp/mod-bmp.c:523-557 | Compression 1: the bytes 2, 7, 0, 3, 1, 2, 3, one to skip, 0, 1 are the pixels 7 7 1 2 3 |
| BmpImage.DecodeRows | extensions/bmp/mod-bmp.c:394-563 | The image is the rows stacked bottom-up, exactly if all are good; else it ends as the first that is not |
| BmpImage.StackedAt | extensions/bmp/mod-bmp.c:392-563 | Row y of an image is row h - 1 - y of the file |
| BmpEncode.EncodeRow | extensions/bmp/mod-bmp.c:642-658 | Writes a row's bytes with zero padding, and nothing else |
| BmpEncode.EncodeRows | extensions/bmp/mod-bmp.c:639-660 | Writes the file rows of the image, the last image row first |
| BmpEncode.RowsFound | extensions/bmp/mod-bmp.c:394-563 | A decoder finds in them the rows of the image, opaque |
| BmpEncode.StackedBack | extensions/bmp/mod-bmp.c:562 | Stacked bottom-up these rows are the image |
| BmpCodec.RowsSizeIs | extensions/bmp/mod-bmp.c:34 | The rows take h * WADJUST(w) bytes |
| BmpCodec.EncodeBmp | extensions/bmp/mod-bmp.c:598-666 | Writes exactly 14 + 40 + h * WADJUST(w) bytes, headers and rows, for every size whose int arithmetic does not overflow |
| BmpCodec.ReadFileHeader | extensions/bmp/mod-bmp.c:273-284 | The signature test, and the offset of the pixels |
| BmpCodec.ReadInfo | extensions/bmp/mod-bmp.c:345-390 | Sizes, format, colour table and start, from either header, by their places in the file |
| BmpCodec.LongEnough | extensions/bmp/mod-bmp.c:394-471 | Every uncompressed file with data enough for its rows has rows as decoding expects them, whatever its bits, colours and values |
| BmpCodec.DecodeBmp | extensions/bmp/mod-bmp.c:319-588 | An image exactly if the signature is there and every row is good, and then the rows stacked bottom-up; an error, or a read behind the table, exactly if the first row that is not good is one |
| BmpCodec.EncodedDecodes | extensions/bmp/mod-bmp.c:319-666 | Decoding an encoded image gives back every pixel with alpha 255, for every size above zero where w * h * 4, w * 8 and the size of the file are below 2^31 |
| BmpFormat.FullHeader | extensions/bmp/mod-bmp.c:371-390 | From fields laid out as the structs declare them, signed or not, decoding takes exactly width, height, compression, bits and offset, and as many colours, blue first in four bytes each, as are said or as the bits need |
| BmpFormat.CoreHeader | extensions/bmp/mod-bmp.c:346-369 | The same of the old header, with two bytes for the sizes and three for each colour |
| BmpFormat.EncodedHeaders | extensions/bmp/mod-bmp.c:614-637 | Encoding writes the file's own length, offset 54, header size 40, width, height, one plane, 24 bits, and zero in every other field |
| BmpFormat.EncodedRow | extensions/bmp/mod-bmp.c:639-660 | Row y of the image is h - 1 - y rows behind the headers, blue, green and red of each pixel in order, and zeros up to a multiple of four bytes |
| FfiScalar.StoreThenLoad | extensions/ffi/t-struct.c:92-152 | An integer comes back from memory exactly if it is in the range of its C type |
| FfiMemory.StoredAt | extensions/ffi/t-routine.c:306-362 | In memory the lowest byte of a number comes first |
| FfiMemory.FieldTakes | extensions/ffi/t-struct.c:333-469 | A field takes a number exactly if it is representable in the C type, signed or unsigned, of that many bits |
| FfiStruct.SizeIsProduct | extensions/ffi/t-struct.c:1186-1189 | A field takes its width times its dimension |
| FfiStruct.LayOut | extensions/ffi/t-struct.c:1102-1293 | The fields tile the struct in order from 0 to its size; an error exactly if the sum is over the limit or some field is of 2 GB and there is no room for it, and which of the two by the first such field |
| FfiStruct.TwoGigabytes | extensions/ffi/t-struct.c:1186-1193 | A field of 2 GB is refused below the limit, unless there is room |
| FfiStruct.InOrder | extensions/ffi/t-struct.c:1102-1293 | No two fields overlap |
| FfiStruct.Struct.AssignScalar | extensions/ffi/t-struct.c:333-469 | A cell gets the number, or an overflow error leaves all bytes, exactly by range |
| FfiStruct.Struct.SetVar | extensions/ffi/t-struct.c:487-533 | Sets the first field of the name, all items or the first; the number of items counts from where the block stands, the items from its head; stops at the first out of range |
| FfiStruct.Struct.GetVar | extensions/ffi/t-struct.c:158-192 | Reads the first field of the name |
| FfiStruct.SetKeepsOthers | extensions/ffi/t-struct.c:487-533 | However a set ends, every other field keeps its value |
| FfiMemory.AssignedAt | extensions/ffi/t-struct.c:333-469 | Element n of a field is written n widths behind its offset, byte by byte, and every other byte of the struct is kept |
| FfiMemory.SetEnds | extensions/ffi/t-struct.c:487-533 | When a set finds nothing to set, meets a wrong type, overflows or is done, by what is passed |
| FfiMemory.StopsInTheMiddle | extensions/ffi/t-struct.c:508-515 | After an overflow the items before the first that does not fit are in the array, and its other elements are as before |
| FfiMemory.PickedElement | extensions/ffi/t-struct.c:519-524 | With the picker 1 the first element is set, and the others are kept |
| FfiStruct.SetThenGet | extensions/ffi/t-struct.c:52-533 | A field set whole holds what was passed exactly if a number reads back, or each item from the head reads back as the one at its place from where the block stands |
| FfiStruct.SurvivesWhen | extensions/ffi/t-struct.c:503-518 | From its head that is when all items read back: no int16, or they fit into an int8; for items that do, when the first items are those passed |
| FfiStruct.NextBlockSetsHead | extensions/ffi/t-struct.c:503-518 | `next [9 1 2]` sets two items to 9 and 1 |
| FfiStruct.Int16LosesHighByte | extensions/ffi/t-struct.c:92-152 | An int16 field set to 200 reads back as -56 |
| FfiStruct.SameFields | extensions/ffi/t-struct.c:286-330 | Compares types, offsets, and dimensions where the target has one |
| FfiStruct.SameIsSameLayout | extensions/ffi/t-struct.c:1450-1466 | With equal sizes that forces equal byte layouts |
| FfiMemory.SameWhen | extensions/ffi/t-struct.c:286-330 | Structs of one size compare as the same exactly if types and numbers of elements agree and no array is compared with a single number |
| FfiStore.Store.ExpandAndAlign | extensions/ffi/t-routine.c:193-214 | The slot starts at the next multiple of the alignment; earlier bytes are kept |
| FfiStore.Store.ArgToFfi | extensions/ffi/t-routine.c:222-404 | The slot holds the argument's bytes; a type error exactly if it does not match the schema |
| FfiStore.Gather | extensions/ffi/t-routine.c:708-822 | After all expansions every argument's bytes are at its recorded offset |
| FfiStore.Relocate | extensions/ffi/t-routine.c:838-850 | The recorded offsets become addresses in the store |
| FfiStore.SlotIsSound | extensions/ffi/t-routine.c:193-214 | Every slot is aligned as an address, and within the store |
| FfiStore.SlotsApart | extensions/ffi/t-routine.c:193-214 | Any two slots are apart and in order |
| FfiMemory.ArgumentAddress | extensions/ffi/t-routine.c:258-310 | In a store at a multiple of eight, numbers are at multiples of their own size, and structs at multiples of eight |
| FfiMemory.LittleBetween | extensions/ffi/t-routine.c:193-214 | The first slot is at 0, and before each other one less than its own alignment is skipped |
| FfiMemory.ArgumentTaken | extensions/ffi/t-routine.c:293-319 | Every number is taken, and its low bytes stored; a struct exactly if it has the size of the schema |
| FfiStore.ArgumentReadsBack | extensions/ffi/t-routine.c:521-587 | An argument reads back exactly if it is a struct or in the range of its C type |
| FfiStore.OffsetInStore | extensions/ffi/t-routine.c:846-847 | An offset is 0 or within the store, as the assertion wants it, exactly if all slots before it are empty, or it or a later one is not |
| FfiStore.EmptyStructLast | extensions/ffi/t-routine.c:846-847 | A fact of the layout: an empty struct after a number has its offset at the end of the store. Whether the library takes the type of such a call is not modelled |

## Left out

- GifImage.DecodeLzw: stops where the code leaves a row with a full table; the code then goes on with the following rows from a stack that still holds pixels. Images of 2^31 bytes or more, malformed streams, which the code leaves row by row too, and interlaced images of 2 to 4 rows, where it writes outside the image, are outside the contract.
- GifDecoder.LzwDecoder.TakeBits: the masks are remainders by powers of two, the mask being proved to be one less than such a power; shifts are divisions.
- GIF extension blocks, local colour tables and transparency are not modelled.
- GobTree.InsertGobs: words that are looked up are not modelled. Gob flags, PANE assignment and TAKE, which leave parent pointers behind, and CHANGE and POKE are no steps of the runs.
- GobTree.Remove: what becomes of the gobs behind a pane is not followed. Indexes and panes are below 2^31.
- GobMap.MapGobInner: coordinates are real numbers; rounding of floats is not modelled.
- AwaitHandshake.StepKeeps: one promise at a time; natives called on the main thread, the promise queue and its wake-up, the Asyncify build, halting, and spurious wake-ups are not modelled. A native calls resolve or reject once.
- AwaitHandshake is a state machine on values, not a class: the threads share state that no single method owns.
- PathLocal.MoldFileToLocal: what becomes of a text that was cut within a character is not followed; the results on FULL are about texts that were not. Paths hold no NUL. The read past the terminator after a final `.` gives NUL.
- PathNormal.FullIsNormal: on Windows, paths with a backslash in a name are outside, here and in the other results on FULL.
- BmpHeader.MapBytes: the little-endian path; a struct is the array of its bytes.
- BmpCodec.DecodeBmp: images are pixels of four bytes. The code reads without looking at the end of the data; files it would read past, sizes below one, and sizes for which its int arithmetic overflows, are outside the contract, as are good rows of runs that do not add up to the width. What it does after a read behind the colour table is not modelled.
- FfiStruct.LayOut: fields of integer type. Floats, pointers, REBVAL, nested structs, raw memory, initialisers and the libffi type arrays are not modelled.
- FfiStruct.LayOut: the room that the allocator leaves is a parameter.
- FfiStruct.Struct.SetVar: a picker on an array of dimension 0 is outside the contract; the code passes none. Numbers are integers; decimals are cut to integers before in the code.
- FfiStore.Gather: integer and struct arguments. Floats, pointers and callbacks are not modelled, nor are the foreign call and the library's check of the types before it.
- Crypto, PNG, JPEG, sockets, processes, locale, clipboard, console and the other extensions wrap libraries or the system and are not modelled.
