# Verification of the JSON library and of `str_replace`

A Dafny model of the C library `src/cJSON.c` (declared in `inc/cJSON.h`) and of the text
replacement in `src/util_cgi.c`, with proofs of what they promise.  `dafny verify
dfyconfig.toml` checks everything.

The project has two layers.

**Texts and values.**  `Json` has the values and what the printers print for them, as
functions.  `Strings`, `Numbers` and `ParserSpec` have what the parser reads, as functions on
the rest of the text.  `Grammar` has derivation trees: the language the parser accepts and,
inside it, the language of RFC 8259, with the value of each tree; there and in `Soundness`
parser and trees are proved to agree both ways.  `MinifySpec` and `RoundTrip` relate minified and printed texts to trees,
`Theorems` collects the laws that follow, and `Splitting` says when minifying makes no rejected
text acceptable.  `Layout`, `Escapes` and `Lexemes` state on the bytes alone where formatted text
has its white space, how the characters of a string may be spelled and are spelled, and what
minifying keeps.  `Unicode` has UTF-8 (section 3 of RFC 3629) and
UTF-16 (section 2.2 of RFC 2781).

**Memory.**  `Heap` has the nodes with their links, an allocator that may fail at any request,
counts its failures and keeps a ledger of live blocks, and *shapes*: trees of nodes, strings and
names that say what hangs on a node.  That a request failed during a call is `Denied`, or in the
contracts of the steps a larger count of failures, which comes to the same.  `StringParser`, `Parser` and `ParseText` are the parser, `Deleter` is
deletion, `Writer`, `StringPrinter`, `Pieces`, `Composer` and `Printer` are the unbuffered
printer, `Growth`, `PrintBuffers` and `BufferedPrinter` the buffered one, `Minifier` is the in-place
minifier with `Bits` for the bit operations, `Lists`, `Cycles`, `ListEdit`, `Keys` and
`ObjectEdit` are the child lists, `Duplicator` is references and copies.  Each method has the
loops, branches and allocations of the C function and is proved against the first layer; the
ledger says which blocks are live afterwards on every path.  `StrReplace` stands alone.

## Conditions

- Texts are C strings.  A literal that the text cuts short (a backslash at the end, fewer than
  four bytes after `\u`) makes the C code read on after the terminator; the specification calls
  the outcome `Undefined` and the methods exclude it.  `Lexed` says that every literal of a text is closed and
  complete.
- The laws of minification need no more than `Closed`: the block comments of a text, and its
  literals outside comments, are closed.  Without it `cJSON_Minify` reads on as well.
- Every string and every name that hangs on a node has a terminator (`IsString`, a part of
  `Holds`); the parser and the copies provide that.
- The printers need what the C code uses without a test: string items have a string, members
  have a name, and the two number fields agree.  `Printable` numbers are integers in the range of
  `int`, so they take the first two branches of `print_number`.
- A buffered print asks for at most 2^30 bytes, where `pow2gt` stays inside `int`.
- An item to be linked into a list is not in the list already, and linking it makes no cycle
  (`Joinable`).  What is in a list already needs no condition: `Cycles` proves it separate.
- A key looked up after a deletion is not one of the blocks deleted.

## Where the code is not what one might expect

The model follows the code in each of these.

- The parser takes numbers that RFC 8259 does not have: `-`, `01`, `1e`, `-.5`.  `skip` passes
  over every byte from 1 to 32, while `cJSON_Minify` removes only the white space of RFC 8259.
- A literal that is not closed is accepted at the end of the text.
- A high surrogate before an escape that is no low surrogate is dropped with it.
- An empty object printed formatted at depth `d` has `d-1` tabs before its brace.
- In the buffered printer `i` holds the start of an object and is then reused to count tabs
  (src/cJSON.c:604), so the pointer returned for a nested formatted object is wrong
  (`BufferedPrinter.Start`).  At the top level both are 0 and the result is right.
- `cJSON_PrintBuffered` of a null item returns null and leaves its buffer allocated, if there was
  memory for it: it is the one case in which a null result leaves anything behind.
- `return_parse_end` is the byte after the last one read; inc/cJSON.h:128 speaks of the final byte parsed.
- In `cJSON_Minify`, `/*/` is a complete comment.  Minified text can be accepted where the original
  was not, exactly when the original `Splits`; `/* " */ null` is such an original.
- `cJSON_ReplaceItemInObject` overwrites the name of the new item without freeing it, and both
  it and `cJSON_AddItemToObject` go on without a name when the copy of the key cannot be made.

## Model

| member | source | states |
|---|---|---|
| `Theorems.PrintThenParse` | src/cJSON.c:342-658 | For every printable value, depth and `fmt`, reading the printed text followed by any bytes `k` gives the value back and stops exactly before `k`, if and only if `k` does not continue a number printed last |
| `Theorems.ParsePrinted` | src/cJSON.c:323-343 | The printed text of every printable value, formatted or not, is accepted to its last byte and gives the value back |
| `Theorems.StopsAtTheEnd` | src/cJSON.c:357-369 | The same for every text the parser accepts: it is read to its end and no further if and only if what follows does not extend a final number |
| `Theorems.PrintsRfc8259` | src/cJSON.c:372-403 | The printed text of every value is derivable in the grammar of RFC 8259 |
| `Theorems.AcceptsRfc8259` | src/cJSON.c:323-337 | Every text of the grammar of RFC 8259, with blanks around it, is accepted to its last byte and gives the value it denotes |
| `Theorems.AcceptedTexts` | src/cJSON.c:323-369 | With a null terminator required, exactly the C strings with a derivation tree between blanks, or made of one literal that is not closed, are accepted, and the tree or the body of the literal gives the value |
| `Theorems.AcceptsPrefix` | src/cJSON.c:323-339 | Without a terminator required, a text of the accepted language behind blanks is read to its end with its value, and whatever follows is left over, if and only if that does not extend a number |
| `Theorems.AcceptedPrefixes` | src/cJSON.c:323-343 | Without a terminator required, a value is read of exactly the C strings that start with such a text, leaving exactly what follows it, and of those made of one literal that is not closed |
| `Theorems.ToTheEnd` | src/cJSON.c:334-336 | A text is accepted with a terminator required if and only if it is without and only blanks are left over, and the value is the same |
| `Theorems.BlankBefore` | src/cJSON.c:319 | Exactly the bytes from 1 to 32 are passed over before a value |
| `Theorems.WordsRead` | src/cJSON.c:360-362 | The three words are read as null, false and true |
| `Theorems.MinifyPreserves` | src/cJSON.c:735-750 | A text accepted whole, unless it is one literal that is not closed, has its literals and comments closed, so that it can be minified, and is still accepted whole after minification, with the same value |
| `Theorems.MinifyPrinted` | src/cJSON.c:735-750 | Minifying the formatted text of a value, at any depth, gives its unformatted text, whatever quotes, backslashes, blanks or slashes its strings contain |
| `Theorems.MinifyAcceptsMore` | src/cJSON.c:735-750 | The converse of the preservation law fails on a word with a space in it |
| `Splitting.MinifyConverse` | src/cJSON.c:735-750 | A text whose literals and comments are closed is accepted if and only if its minified form is and it is not split: it has no comment and no white space between two bytes of a token; without a split both give the same outcome |
| `Splitting.UnsplitIsSame` | src/cJSON.c:735-750 | A text that is closed and not split is accepted, rejected, or cut short inside a literal, as its minified form is, with the same value |
| `Splitting.AcceptedIsUnsplit` | src/cJSON.c:323-337 | An accepted text, unless it is one literal that is not closed, is not split |
| `Lexemes.MinifiesLexemes` | src/cJSON.c:735-750 | The C strings that can be minified are exactly the rows of bytes, closed literals, line comments and closed block comments, and each is minified to its literals and its bytes other than white space, in order |
| `Grammar.Complete` | src/cJSON.c:357-369 | The parser reads the text of every derivation tree of the accepted language, in front of anything that does not extend it, as the value the tree denotes |
| `Soundness.Sound` | src/cJSON.c:357-431 | Whatever the parser reads, except a literal that is not closed, is the text of a derivation tree that denotes the value and that what follows does not extend |
| `ParserSpec.LexedValue` | src/cJSON.c:192-249 | On a text whose literals are closed and complete the parser never reads past a terminator, and what it leaves is such a text |
| `Grammar.RfcIsAccepted` | src/cJSON.c:357-369 | Every tree of RFC 8259 is a tree of the accepted language |
| `MinifySpec.MinifyTree` | src/cJSON.c:735-750 | Minifying the text of any tree gives the text of the same tree without its white space, then the minified rest; the literals of the text are closed if and only if those of the rest are |
| `MinifySpec.StripKeeps` | src/cJSON.c:735-750 | Removing the white space of RFC 8259 from a tree keeps it in the accepted language, keeps its value, and keeps what would extend it |
| `RoundTrip.TreeText` | src/cJSON.c:372-403 | The printed text of a value is the text of the tree built for it |
| `RoundTrip.TreeMeaning` | src/cJSON.c:372-403 | The tree built for a printable value lies in the grammar of RFC 8259 and denotes that value |
| `Layout.PrintsLayout` | src/cJSON.c:434-658 | The formatted text of a value is the one text with the bytes of its unformatted text in which a line feed stands after each opening brace of an object and after each member with its comma, followed by as many tabs as brackets are open without the one closed next (one fewer in an object without members), a space after each comma between items, a tab after each colon, and no other white space |
| `Layout.PrintsSpaceless` | src/cJSON.c:434-658 | Unformatted text has no white space outside its literals |
| `Layout.OneLayout` | src/cJSON.c:434-658 | Two texts laid out that way that are the same without white space are the same |
| `Strings.PassesAgree` | src/cJSON.c:197-243 | On every complete literal the decoding pass stops at the quote where the counting pass stopped, writes at most the bytes counted, and writes no terminator of its own |
| `Strings.DecodesBody` | src/cJSON.c:202-245 | A body of any valid elements before a closing quote is decoded to the bytes it stands for, with NULs, lone surrogates and ill-formed pairs dropped |
| `Strings.BodyRead` | src/cJSON.c:197-243 | Every complete literal body is a sequence of such elements |
| `Strings.Transcodes` | src/cJSON.c:216-238 | When the unescaped bytes are well-formed UTF-8, the bytes stored decode as UTF-8 to exactly the characters of the literal, read with UTF-16 for its escapes |
| `Escapes.HexRead` | src/cJSON.c:177-188 | The four hexadecimal digits of a code unit, found by division and each in either case, are read as that code unit |
| `Escapes.HexOnly` | src/cJSON.c:177-188 | Four bytes that are not all hexadecimal digits are read as 0, and all others are the digits of what is read |
| `Escapes.StoresCharacters` | src/cJSON.c:192-249 | However the characters of a text are spelled in a literal, each as it is, by one of the eight two-byte escapes of RFC 8259, or by the digits of its UTF-16 code units, what is stored decodes as UTF-8 to these characters |
| `Escapes.EscapedByte` | src/cJSON.c:208-241 | The byte after a backslash stands for what the table of section 7 of RFC 8259 says, and for itself when it is not in the table |
| `Escapes.LoneUnit` | src/cJSON.c:219-223 | An escape for a NUL or an unpaired surrogate stands for nothing |
| `Escapes.BrokenPair` | src/cJSON.c:221-227 | A high surrogate and an escape after it that is no low surrogate stand for nothing |
| `Escapes.PrintedByte` | src/cJSON.c:286-305 | Each byte of a string is printed by its two-byte escape, as `\u` with four lower-case digits, or as it is |
| `Escapes.Shortest` | src/cJSON.c:286-305 | No literal of RFC 8259 with the same meaning is shorter than the printed one |
| `Unicode.EncodeDecode` | src/cJSON.c:229-237 | The bytes written for a character decode, in shortest form, to that character |
| `StringParser.PutUtf8` | src/cJSON.c:229-237 | The fall-through writes from the last byte back, with their bit operations, put down the UTF-8 form of the character |
| `StringParser.ParseHex4` | src/cJSON.c:177-188 | Four hexadecimal digits are read as the number they denote, anything else as 0 |
| `StringParser.ParseUnicode` | src/cJSON.c:216-238 | The escape branch writes the bytes and moves the cursor as one step of the decoding pass does, within the room counted |
| `StringParser.DecodeBody` | src/cJSON.c:202-245 | The decoding loop fills a block of exactly the size counted with the decoded bytes and a terminator, and stops at the closing quote |
| `StringParser.ParseString` | src/cJSON.c:192-249 | The literal is stored in one new block as its decoded value; on failure nothing is allocated and the item is untouched |
| `Numbers.ReadingValue` | src/cJSON.c:96-115 | Collecting the digits first and scaling once by fraction length and exponent gives the rational number the token denotes |
| `Numbers.ReadsToken` | src/cJSON.c:96-115 | Every valid token is read to its end, and no further, when what follows does not extend it |
| `Numbers.TokenEnds` | src/cJSON.c:96-115 | The bytes after a token are left alone if and only if they do not extend it |
| `Numbers.TokenRead` | src/cJSON.c:96-115 | Whatever is read as a number is a valid token, as long as it can be |
| `Numbers.ValueIs` | src/cJSON.c:96-115 | The value of a token is the number its digits make up without the point, multiplied or divided by ten as often as its exponent says, less once for each digit of the fraction |
| `Numbers.LeadingDigit` | src/cJSON.c:102-106 | A digit counts ten times as much for each digit behind it |
| `Heap.Truncate` | src/cJSON.c:112 | The integer field is the value without its fraction: not further from zero than the value, and less than one away |
| `Parser.IntegerPart` | src/cJSON.c:112 | Without an exponent the integer field is the number the digits before the point make up, with the sign |
| `Parser.ParseNumber` | src/cJSON.c:96-115 | The loops consume that token and store its exact value and the value truncated towards zero |
| `RoundTrip.TokenMeaning` | src/cJSON.c:147-162 | The decimal text of every integer in the range of `int` is an RFC 8259 number that denotes the integer |
| `RoundTrip.PrintedNumber` | src/cJSON.c:147-162 | Of the RFC numbers that are only digits, the printed one is the only one with its value, apart from `-0` |
| `Heap.Allocator.NewNode` | src/cJSON.c:73-78 | There is a new zeroed node exactly when the next request succeeds |
| `Heap.DeniedIsCounted` | src/cJSON.c:47-48 | The count of failures that the contracts compare grows exactly when a request made since then failed |
| `Parser.ParseValue` | src/cJSON.c:357-369 | Success, end and value are those of the specification unless a request fails; in every case the blocks left by the call are exactly those that hang on the item, linked as a list and reached once |
| `Parser.ParseArray` | src/cJSON.c:406-431 | The same for the items of an array, on every failure path |
| `Parser.ParseObject` | src/cJSON.c:514-547 | The same for the members of an object, whose names move from `valuestring` to `string` |
| `ParseText.ParseWithOpts` | src/cJSON.c:323-337 | There is a root if and only if the text is accepted and none of the requests made fails; a failed call leaves the ledger as it was, a successful one adds exactly the blocks reached from the root, which say the value |
| `ParseText.Discard` | src/cJSON.c:331-334 | Deleting the root after a failure frees each block hung on it, and nothing else |
| `Deleter.Delete` | src/cJSON.c:81-93 | Deleting a list frees exactly the blocks it owns, each once: not the string and children of a reference |
| `Deleter.AllWholeOwn` | src/cJSON.c:81-93 | Without references, what a list owns is all that can be reached from it, and nothing is owned twice when nothing is reached twice |
| `StringPrinter.Measure` | src/cJSON.c:256-279 | The two scans give the exact size of the escaped text with its terminator, and take the unescaped branch only when nothing needs an escape |
| `StringPrinter.Write` | src/cJSON.c:282-306 | Either branch writes the escaped text and the terminator in exactly the size measured |
| `Composer.RoomSuffices` | src/cJSON.c:475-508 | The `len` summed over the items of an array covers everything written for them |
| `Composer.MemberRoomSuffices` | src/cJSON.c:618-655 | The `len` summed over the members of an object covers everything written for them, tabs included |
| `Composer.ComposeItems` | src/cJSON.c:498-508 | The filling loop puts the text of the array into the block measured, and frees every piece |
| `Composer.ComposeMembers` | src/cJSON.c:640-655 | The filling loop puts the text of the object into the block measured, and frees every piece |
| `Printer.PrintNumber` | src/cJSON.c:147-162 | For a number in the range of `int` the block holds its decimal text |
| `Printer.PrintStringPtr` | src/cJSON.c:252-307 | The block holds the quoted and escaped string |
| `Printer.PrintArray` | src/cJSON.c:434-511 | One new block with the text of the array, or none after a failed request; `entries` and every piece in it are released |
| `Printer.PrintObject` | src/cJSON.c:550-658 | One new block with the text of the object, or none after a failed request; `entries`, `names` and every piece in them are released |
| `Printer.Print` | src/cJSON.c:342 | The formatted text of the value in one new block; null, with an unchanged ledger, if and only if a request made fails |
| `Printer.PrintUnformatted` | src/cJSON.c:343 | The unformatted text of the value in one new block; null, with an unchanged ledger, if and only if a request made fails |
| `Bits.Pow2gt` | src/cJSON.c:117 | The least power of two at or above its argument |
| `PrintBuffers.PrintBuffer.Ensure` | src/cJSON.c:121-136 | The request is added to those made, and length, growth and cost follow; on success there is room for it and all earlier contents are kept, on failure the buffer is freed and gone for good |
| `Growth.Amortised` | src/cJSON.c:117-136 | Over every run of requests the length stays the first one or becomes less than twice the largest request, and all bytes copied are then fewer than the first and the last length together |
| `Growth.PeakIsLargest` | src/cJSON.c:121-136 | The peak that bounds the length is the largest request of the run |
| `PrintBuffers.PrintBuffer.Update` | src/cJSON.c:138-144 | The offset moves to the terminator that comes next, so that all that was printed lies before it |
| `BufferedPrinter.PrintStringPtr` | src/cJSON.c:252-307 | The quoted string and its terminator stand after the earlier text, which is kept |
| `BufferedPrinter.PrintArray` | src/cJSON.c:453-468 | The text of the array stands after the earlier text, and the pointer is to its start; or the buffer is gone |
| `BufferedPrinter.PrintObject` | src/cJSON.c:570-607 | The text of the object stands after the earlier text, or the buffer is gone; the pointer is to its start except for a formatted object that is not empty, where it is to the depth, as `i` was reused |
| `BufferedPrinter.PrintBuffered` | src/cJSON.c:345-353 | For every first size the text is the one the unbuffered printer gives and the pointer is the start of the final buffer, whose length is the first size or below twice the largest request, with the copying bound; one new block on success, none on failure, failure if and only if a request made fails; for a null item the buffer is left behind if and only if there was memory for it |
| `Minifier.Minify` | src/cJSON.c:735-750 | The text is replaced in place by its minified form; the write cursor never passes the read cursor and nothing after the old terminator is touched |
| `Minifier.CopyLiteral` | src/cJSON.c:746 | A literal is copied byte for byte up to and with its closing quote, with escaped quotes inside it |
| `Cycles.DoublyLinked` | inc/cJSON.h:44-46 | A chained list ends in null both ways, neighbours point at each other, and no node comes twice |
| `Cycles.OneShape` | inc/cJSON.h:44-55 | The links of a node decide its whole shape |
| `Cycles.Acyclic` | inc/cJSON.h:44-55 | A node cannot be reached from its own children |
| `Cycles.LinkedSeparate` | inc/cJSON.h:44-55 | No node of a list is reached from below another node of it |
| `Lists.InsertedShapes` | src/cJSON.c:684-685 | Insertion into the list of shapes is insertion into the sequence of values and of members |
| `Lists.RemovedShapes` | src/cJSON.c:677-678 | Removal from the list of shapes is removal from the sequence of values and of members |
| `Lists.ReplacedShapes` | src/cJSON.c:686-688 | Replacement in the list of shapes is replacement in the sequence of values and of members |
| `Lists.InsertedApart` | src/cJSON.c:684-685 | After an insertion no block is reached twice if none was before |
| `Lists.RemovedApart` | src/cJSON.c:677-678 | After a removal no block is reached twice, from the list, from the item or from both, if none was before |
| `Lists.InsertedAt` | src/cJSON.c:683-685 | After an insertion the new item stands at the index, and every other item where it stood or one further on |
| `Lists.RemovedAt` | src/cJSON.c:677-678 | After a removal every other item stands where it stood or one further to the front |
| `ListEdit.EveryList` | inc/cJSON.h:44-55 | Whatever hangs on a node is a list that the edits apply to, with its nodes separate and the parent not below it |
| `ListEdit.GetArrayItem` | src/cJSON.c:662 | The item at the index, with a negative index as 0, or null past the end |
| `ListEdit.AddItemToArray` | src/cJSON.c:671 | The item becomes the last of the list, which stays properly linked; every item says what it said before; null adds nothing |
| `ListEdit.InsertItemInArray` | src/cJSON.c:684-685 | The item stands at the index, with a negative index as 0 and one past the end as the end; the list stays properly linked and every item says what it said before |
| `ListEdit.DetachItemFromArray` | src/cJSON.c:677-678 | The item at the index is removed and left without neighbours, the rest stays properly linked, and every item says what it said before; past the end nothing happens |
| `ListEdit.DeleteItemFromArray` | src/cJSON.c:679 | The same, and exactly the blocks of the removed item are freed |
| `ListEdit.ReplaceItemInArray` | src/cJSON.c:686-688 | The new item stands at the index in place of the old one, whose blocks are freed exactly; past the end nothing happens |
| `Keys.CompareEqual` | src/cJSON.c:39-44 | The comparison is 0 if and only if the strings differ at most in the case of letters, so it is an equivalence |
| `Keys.CompareSame` | src/cJSON.c:39-44 | The comparison is 0 if and only if the lengths agree and at each place the bytes are the same, or the same letter from A to Z and from a to z |
| `Keys.CompareDiffers` | src/cJSON.c:39-44 | Otherwise it is the difference of the bytes at the first place where they are not, with letters from A to Z taken as those from a to z |
| `Keys.SameKey` | src/cJSON.c:39-44 | Two names are the same key if and only if both are null or they have the same letters in that sense |
| `Keys.FirstNamed` | src/cJSON.c:663 | A lookup finds the first name with the same letters as the key |
| `Keys.StrCaseCmp` | src/cJSON.c:39-44 | The result is 0 if and only if both strings are null or both have the same letters, 1 if one of them is null, and otherwise the difference at the first place where they differ |
| `Keys.LookupAfterRemoval` | src/cJSON.c:680 | After an item is removed, every key that is not its own finds the item it found before, or still none |
| `Keys.RemovedNext` | src/cJSON.c:680 | After its first item is removed, a key finds the next item that has it |
| `Keys.LookupAfterReplacement` | src/cJSON.c:689 | After the item of a key is replaced under that key, the key finds the new item and every other key what it found before |
| `ObjectEdit.GetObjectItem` | src/cJSON.c:663 | The first item whose name is the key up to the case of letters, or null |
| `ObjectEdit.DetachItemFromObject` | src/cJSON.c:680 | Exactly the item that a lookup finds is removed and left without neighbours |
| `ObjectEdit.DeleteItemFromObject` | src/cJSON.c:681 | The same, and exactly its blocks are freed |
| `ObjectEdit.AddItemToObject` | src/cJSON.c:672 | The item is added last under a copy of the key, its old name is freed, and it has no name if and only if the request for the copy fails |
| `ObjectEdit.ReplaceItemInObject` | src/cJSON.c:689 | The item found under the key is replaced and freed, and its blocks leave the ledger; the new item gets a new copy of the key as its name, and the keys of the list stay what they were; if and only if the request for the name fails, that place loses its key; the old name of the new item stays allocated |
| `ObjectEdit.ReplaceThenGet` | src/cJSON.c:663-689 | After a replacement, a key finds the new item if and only if the request for the name succeeded and the key is that name but for case; any other key finds what it found before |
| `Duplicator.CreateReference` | src/cJSON.c:668 | A node that shares string and children with another, says the same, owns only itself, and has no name and no neighbours; null if and only if the request for it fails |
| `Duplicator.AddItemReferenceToArray` | src/cJSON.c:674 | Such a reference, which shares the string and the children of the item and says what it says, becomes the last item; nothing is added if and only if the request for it fails |
| `Duplicator.Duplicate` | src/cJSON.c:708-733 | A copy, deep or of one node, made of new blocks reached once each, with no reference in it and no neighbours, that says what the original says and has its kind, its two number fields, its string and its name; null, with nothing left allocated, if and only if there is no item or a request made fails |
| `Duplicator.DuplicateAndDelete` | src/cJSON.c:708-733 | Deleting a copy again leaves the ledger, and what the original says, as they were |
| `StrReplace.Replace` | src/util_cgi.c:270-317 | In a block that holds the result and the original, the text becomes the one with every match replaced from left to right; the loop ends for every pattern and replacement |
| `StrReplace.ReplacesSeparators` | src/util_cgi.c:270-317 | The result is the pieces of the text between matches joined by the replacement, so inserted text is not searched again |
| `StrReplace.SplitIsLeftmost` | src/util_cgi.c:270-317 | Those pieces joined by the pattern are the text, and no match begins inside a piece |
| `StrReplace.LeftmostIsUnique` | src/util_cgi.c:270-317 | There is no other way to cut the text with that property |
| `StrReplace.LengthLaw` | src/util_cgi.c:270-317 | The final length is the original length plus the number of matches times the difference of the lengths |
| `StrReplace.EmptyPattern` | src/util_cgi.c:270-276 | An empty pattern matches nowhere and leaves the text as it is |

## Left out

- Rounding: numbers are exact rationals.  The `%.0f`, `%e` and `%f` branches of `print_number`, `pow`, and the overflow of `subscale` and of the cast to `valueint` are not modelled.
- Comments and literals that are not closed in a text given to `cJSON_Minify`, and literals cut short given to the parser: the C code runs past the terminator.
- The error pointer `ep` and `cJSON_GetErrorPtr`; the allocator hooks, which only choose where memory comes from.
- The flag `cJSON_StringIsConst` and `cJSON_AddItemToObjectCS`: names are always owned.
- The flag `cJSON_IsReference` is a field of its own beside the kind; a kind outside the seven does not occur.
- The `cJSON_Create` functions, `cJSON_CreateIntArray` and the like, and `cJSON_GetArraySize`, which would add only easy members.  `cJSON_AddItemReferenceToObject` is `cJSON_AddItemToObject` after `create_reference`.
- `cJSON_Parse` is `cJSON_ParseWithOpts` without a terminator required; a null text, and a null `return_parse_end`, are not modelled: the end is an output.
- Terminators that the printers write and then overwrite are written only where the code of the next step reads them.
- `tolower` is that of the C locale.
- StrReplace.Replace: the memory for the saved rest of the text is taken to be there; the C code does not test it.
- ObjectEdit.AddItemToObject: the key is not the name of the item itself, which the C code would free before copying it.
- BufferedPrinter.PrintBuffered: a negative first size is not modelled.
- The rest of `src/util_cgi.c`, and the FastCGI, redis, logging and driver programs, which are input and output around these functions.
