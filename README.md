# kvdroid core, modelled in Dafny

Kvdroid is a Python layer that exposes Android classes to Kivy applications.
Almost all of it forwards calls to Java objects. This project models the few
parts that hold logic of their own, and proves what they promise:

- **Image size sniffing** (`kvdroid/util/image.py`). There are five
  header parsers: JPEG, PNG, GIF, BMP and TIFF. A dispatcher tries them in
  that order. Bytes are `seq<byte>`. A parser answers `Found(width, height)`,
  `NotFound` (Python's `(None, None)`) or `Raises` (an exception the
  JPEG parser lets escape). The JPEG scan, the TIFF directory loop and the
  dispatcher loop are methods with loops. Each is proved equal to a
  recursive specification function. Each format has a header encoder, and a
  round-trip lemma shows that the size written is the size read back, both
  by its own parser and through the dispatcher. The five sample headers of
  the module's demonstration block are proved to give 100x50, 200x120,
  320x224, 256x192 and 300x200.
- **The phone book** (`kvdroid/tools/contact.py`, `kvdroid/contact.py`).
  This is the loop over the contacts query.
  - It removes spaces from each number.
  - It drops a number seen before, even under another name.
  - It groups kept numbers by name in a dict whose keys keep insertion order.
  - The dict is modelled as its key sequence plus a map.
  - The loop is a method proved equal to a left fold, `Collect`.
  - The fold keeps the invariants the code relies on. No number or name
    appears twice. Every list is non-empty and sits under exactly one name.
    Together the lists hold each kept number exactly once.
  - An independent definition by "first occurrence" says which numbers,
    names and lists result.
  - The option dispatch covers "mobile_no", "names", "phone_book", the
    TypeError for anything else and the null cursor.
- **The system-font table** (`kvdroid/tools/font.py`). The nested loops
  group the parsed `<font>` elements by family prefix and fill the
  regular, italic, bold and bold-italic slots. The method is proved equal
  to a fold over per-font tags. Lemmas show three things about the table.
  Its keys are exactly the family prefixes, each once. Each entry has, in
  each slot, the path of the last font of that family that fills the slot.
  `system_font` fails with KeyError exactly when no font has that prefix.
- **Shared-storage helpers** (`kvdroid/tools/storage.py`):
  - `_get_root_directory`: the root chosen by name or by MIME type,
    including the ValueError of the `'*'` unpacking;
  - `_get_file_mime_type`: the MIME guess from the extension, with its
    fallbacks;
  - `_get_root_uri`: the MediaStore collection, as an enumeration;
  - the volume normalisation;
  - `_get_pre_29_directory`: the pre-API-29 directory layout;
  - the start of `get_uri`, up to its query. Two lemmas show that the
    API-29 Downloads guard is exactly what ensures get_uri has a content
    URI whenever it queries: with the guard a URI is always found, and
    every input the guard rejects would otherwise reach the query with none.
- **The lifecycle event loop** (`kvdroid/base.py`). `EventLoop` is a class
  with the source's five fields, plus a log of the events dispatched to the
  app.
  - `Poll` takes what the activity reports as an input.
  - `Poll`, `Close` and `Mainloop` are proved against specification
    functions.
  - Lemmas prove the fixed order of the three checks, the condition under
    which each event fires and the flags it leaves. They also prove that a
    closed loop polls no more.
  - `ResumedWithoutFocus` shows a consequence of the code as written. If
    the activity stays resumed and not destroyed while its window has no
    focus, then once the resume flag is False, every poll dispatches
    on_resume and then on_pause. This is because on_pause clears the
    resume flag.

Python's `str.strip`, `str.lower`, `str.split(c)[0]`, `in`,
`str.replace(" ", "")`, `posixpath.join` and `posixpath.splitext` are
modelled in module `PyText`, each with a lemma that characterises it.

## Model

| member | source | states |
|---|---|---|
| Jpeg.JpegSize | kvdroid/util/image.py:10-11 | bytes not starting with FF D8 give (None, None) |
| Jpeg.ScanStep | kvdroid/util/image.py:15-44 | one turn of the scan either stops or moves the offset strictly forward, so the loop terminates; it raises only at an FF byte within the last three bytes of the buffer |
| Jpeg.GetJpegSize | kvdroid/util/image.py:4-46 | the while loop over `offset` computes exactly the recursive scan `JpegSize` |
| Jpeg.ScanAlongWalk | kvdroid/util/image.py:15-42 | along a marker walk (each marker neither SOF nor SOS, stepped over by 2 or by its segment length), scanning from the first marker is scanning from the last |
| Jpeg.ScanFoundIsSof | kvdroid/util/image.py:15-42 | a size found from an offset was read from the first SOF marker (FF C0-CF except C4, C8, CC) on the marker walk from that offset, height the big-endian u16 at +5 and width at +7 |
| Jpeg.JpegFoundIsSof | kvdroid/util/image.py:10-42 | (w, h) is reported exactly when the bytes start with FF D8 and the first SOF marker on the marker walk from offset 2 carries height h and width w |
| Jpeg.ScanRaisesNearEnd | kvdroid/util/image.py:15-20 | the scan raises only at an FF byte within the last three bytes of the buffer (marker[1] missing, or the unpack at line 20 before the bound check) |
| Jpeg.JpegRaisesNearEnd | kvdroid/util/image.py:15-20 | the parser raises only at such an FF byte at offset 2 or later |
| Jpeg.FrameHeaderRoundTrip | kvdroid/util/image.py:18-31 | SOI followed by an SOF0 frame header of width w and height h parses to (w, h) |
| Jpeg.SkipsApplicationSegment | kvdroid/util/image.py:38-42 | an APPn segment before the frame header is skipped by its length and the frame's size is still found |
| Jpeg.ScanBeforeFrame | kvdroid/util/image.py:15-42 | reaching SOS (FF DA) anywhere on the marker walk from offset 2, before any SOF, gives (None, None) |
| Jpeg.SkipSegs | kvdroid/util/image.py:38-42 | any written run of length-prefixed segments that are not SOF, SOS or standalone markers is a marker walk ending right after the run |
| Jpeg.FrameAfterSegments | kvdroid/util/image.py:15-42 | SOI, any such run of segments (DQT, DHT, APPn, COM, ...) and an SOF0 header of w x h parse to (w, h) |
| Jpeg.ScanAfterSegments | kvdroid/util/image.py:15-42 | SOI, any such run of segments and then SOS parse to (None, None) |
| Png.PngSize | kvdroid/util/image.py:55-70 | a PNG size is reported only for the 8-byte signature and at least 29 bytes; the parser never raises |
| Png.FoundIff | kvdroid/util/image.py:55-70 | (w, h) is reported exactly when the signature, 29 bytes, IHDR at 12..16 and big-endian u32 w at 16 and h at 20 are present |
| Png.HeaderRoundTrip | kvdroid/util/image.py:55-70 | a written IHDR header of w x h reads back as (w, h) |
| Gif.GifSize | kvdroid/util/image.py:79-89 | a GIF size is reported only for a GIF87a/GIF89a prefix and at least 10 bytes; the parser never raises |
| Gif.FoundIff | kvdroid/util/image.py:79-89 | (w, h) is reported exactly when the prefix, 10 bytes and little-endian u16 w at 6 and h at 8 are present |
| Gif.HeaderRoundTrip | kvdroid/util/image.py:79-89 | a written GIF header of either version reads back as (w, h) |
| Bmp.BmpSize | kvdroid/util/image.py:98-125 | a BMP size is reported only for the BM prefix and at least 26 bytes; the parser never raises |
| Bmp.OtherHeaderSizes | kvdroid/util/image.py:111-125 | given the prefix and 26 bytes, a size is reported exactly when the DIB header size is at least 40 or exactly 12 |
| Bmp.InfoHeaderRoundTrip | kvdroid/util/image.py:113-117 | a BITMAPINFOHEADER with signed widths and heights reads back as their absolute values |
| Bmp.CoreHeaderRoundTrip | kvdroid/util/image.py:118-123 | a BITMAPCOREHEADER reads back as its little-endian u16 width and height |
| Tiff.TiffSize | kvdroid/util/image.py:134-156 | the TIFF parser never raises |
| Tiff.Entries | kvdroid/util/image.py:168-193 | the directory scan never raises |
| Tiff.GetTiffSize | kvdroid/util/image.py:128-193 | the for loop with its early break and early return computes exactly `TiffSize` |
| Tiff.ReadEntry | kvdroid/util/image.py:173-188 | an entry written with a SHORT or LONG value reads back its tag and value |
| Tiff.EntriesSound | kvdroid/util/image.py:168-191 | a size found by the scan was supplied by an ImageWidth and an ImageLength entry among the first `count` entries, or was already known |
| Tiff.TiffFoundSound | kvdroid/util/image.py:134-191 | a reported TIFF size implies a II/MM mark, magic 42, an in-bounds first IFD, and entries tagged 256 and 257 carrying width and height |
| Tiff.EntriesComplete | kvdroid/util/image.py:168-191 | while a value is missing, an in-bounds ImageWidth entry and ImageLength entry the scan has not passed make it report a size |
| Tiff.EntriesExact | kvdroid/util/image.py:168-191 | when exactly one entry carries each tag, the scan reports exactly those two values |
| Tiff.TiffFoundComplete | kvdroid/util/image.py:134-191 | a valid header whose first directory has in-bounds SHORT/LONG entries for tags 256 and 257 among its first `count` entries is sized, and with one entry per tag the size is their values |
| Tiff.HeaderFields | kvdroid/util/image.py:138-156 | a written header announces its byte order, 42, IFD offset 8 and two entries |
| Tiff.HeaderRoundTrip | kvdroid/util/image.py:134-191 | in either byte order and with SHORT or LONG fields, the size written is read back |
| ImageSize.RunParser | kvdroid/util/image.py:203-213 | calling a parser of the list gives that format's result |
| ImageSize.GetImageSize | kvdroid/util/image.py:197-217 | the loop over the parser list computes exactly `ImageSize` |
| ImageSize.FirstFoundIff | kvdroid/util/image.py:212-215 | trying a list of parsers reports (w, h) exactly when some parser finds it and every earlier one reports none |
| ImageSize.ImageSizeFoundIff | kvdroid/util/image.py:197-217 | the dispatcher reports (w, h) exactly when the first parser, in order JPEG, PNG, GIF, BMP, TIFF, that finds a size finds (w, h) |
| ImageSize.FirstFoundNone | kvdroid/util/image.py:212-217 | a list of parsers reports none exactly when each of them does |
| ImageSize.ImageSizeNoneIff | kvdroid/util/image.py:197-217 | the dispatcher returns (None, None) exactly when all five parsers do |
| ImageSize.Unfold | kvdroid/util/image.py:203-217 | the dispatcher is the first non-(None, None) result in the fixed order |
| ImageSize.ImageSizeRaisesIff | kvdroid/util/image.py:197-217 | the dispatcher raises exactly when the JPEG parser raises |
| ImageSize.JpegThroughDispatcher | kvdroid/util/image.py:203-217 | a written JPEG header is sized correctly through the dispatcher |
| ImageSize.JpegSegmentsThroughDispatcher | kvdroid/util/image.py:203-217 | a JPEG frame header after any run of skippable segments is sized correctly through the dispatcher |
| ImageSize.PngThroughDispatcher | kvdroid/util/image.py:203-217 | a written PNG header is sized correctly through the dispatcher |
| ImageSize.GifThroughDispatcher | kvdroid/util/image.py:203-217 | a written GIF header is sized correctly through the dispatcher |
| ImageSize.BmpThroughDispatcher | kvdroid/util/image.py:203-217 | a written BMP info header is sized correctly through the dispatcher |
| ImageSize.BmpCoreThroughDispatcher | kvdroid/util/image.py:203-217 | a written BMP core header is sized correctly through the dispatcher |
| ImageSize.TiffThroughDispatcher | kvdroid/util/image.py:203-217 | a written TIFF header is sized correctly through the dispatcher |
| ImageSize.OnlyTiffMatches | kvdroid/util/image.py:203-217 | a buffer opening with a TIFF byte-order mark is sized by the TIFF parser alone |
| ImageSize.SampleJpegLayout | kvdroid/util/image.py:241-246 | the sample JPEG bytes are SOI, a JFIF APP0 segment, a 100x50 SOF0 header and SOS |
| ImageSize.SampleJpegSize | kvdroid/util/image.py:241-246 | the sample JPEG gives 100x50 |
| ImageSize.SamplePngSize | kvdroid/util/image.py:251-258 | the sample PNG gives 200x120 |
| ImageSize.SampleGifSize | kvdroid/util/image.py:263-268 | the sample GIF gives 320x224 |
| ImageSize.SampleBmpSize | kvdroid/util/image.py:274-290 | the sample BMP gives 256x192 |
| ImageSize.SampleTiffLayout | kvdroid/util/image.py:295-317 | the sample TIFF bytes are a little-endian header with SHORT ImageWidth 300 and ImageLength 200 entries |
| ImageSize.SampleTiffSize | kvdroid/util/image.py:295-317 | the sample TIFF gives 300x200 |
| PyText.RemoveSpaces | kvdroid/tools/contact.py:27 | the result holds no space and is no longer than the input |
| PyText.RemoveSpacesKeepsOthers | kvdroid/tools/contact.py:27 | a string without spaces is unchanged, so removing spaces is idempotent |
| PyText.RemoveSpacesAppend | kvdroid/tools/contact.py:27 | removing spaces from a concatenation removes them from each part, so the other characters keep their order |
| PyText.RemoveSpacesCount | kvdroid/tools/contact.py:27 | every character other than a space occurs as often as before |
| PyText.Lower | kvdroid/tools/font.py:102 | the result has the input's length and lower-cases each ASCII capital, keeping every other character |
| PyText.TrimStartSpec | kvdroid/tools/font.py:91 | lstrip removes exactly the leading whitespace |
| PyText.TrimEndSpec | kvdroid/tools/font.py:91 | rstrip removes exactly the trailing whitespace |
| PyText.StripTrimmed | kvdroid/tools/font.py:91 | strip gives an infix of the text that neither starts nor ends with whitespace, everything cut off being whitespace |
| PyText.SplitHeadSpec | kvdroid/tools/font.py:92 | `split(sep)[0]` is the prefix up to, not including, the first separator |
| PyText.ContainsIff | kvdroid/tools/font.py:102 | the substring test holds exactly when the substring occurs at some index |
| PyText.Join | kvdroid/tools/storage.py:437-443 | an absolute second part replaces the first; otherwise the result starts with the first part and ends with the second |
| PyText.JoinPlain | kvdroid/tools/storage.py:437-443 | joining a plain component to a path not ending in '/' (absolute or not) puts exactly one '/' between them |
| PyText.RFindSpec | kvdroid/tools/storage.py:475 | rfind gives the last index of the character, or -1 when it is absent |
| PyText.Extension | kvdroid/tools/storage.py:475 | `splitext(p)[1]` is a suffix of the path |
| PyText.ExtensionSpec | kvdroid/tools/storage.py:475 | the extension is non-empty exactly when the last path component has a dot with something other than dots before it; it then runs from the last such dot, holds no other '.' and no '/' |
| PhoneBook.CollectContacts | kvdroid/tools/contact.py:17-33 | the while loop over the rows computes the fold `Collect` and leaves a valid book: no duplicates, space-free numbers, keys equal to the dict's names, non-empty lists each number under one name, lists holding the kept numbers exactly once |
| PhoneBook.AddRowDistinct | kvdroid/tools/contact.py:28-33 | one turn never stores a number or a name twice |
| PhoneBook.AddRowStripped | kvdroid/tools/contact.py:27 | one turn keeps every stored number free of spaces |
| PhoneBook.AddRowKeyed | kvdroid/tools/contact.py:29-32 | one turn keeps the dict's keys equal to the recorded names, with no empty list |
| PhoneBook.AddRowOwned | kvdroid/tools/contact.py:28-33 | one turn keeps every listed number in mobile_no_set and under a single name |
| PhoneBook.AddRowCounted | kvdroid/tools/contact.py:28-33 | one turn keeps the lists' numbers, as a multiset, equal to mobile_no_set |
| PhoneBook.AddRowValid | kvdroid/tools/contact.py:24-33 | one turn preserves all of the book's invariants |
| PhoneBook.CollectValid | kvdroid/tools/contact.py:24-33 | the book after any rows satisfies the invariants |
| PhoneBook.CountsAgree | kvdroid/tools/contact.py:28-33 | the total number of listed numbers equals len(mobile_no_set) |
| PhoneBook.SeenIff | kvdroid/tools/contact.py:27-33 | a number is in mobile_no_set exactly when some row carries it once its spaces are removed |
| PhoneBook.FirstIffUnseen | kvdroid/tools/contact.py:28 | a row's number is kept exactly when no earlier row carried it |
| PhoneBook.CollectNumbersKept | kvdroid/tools/contact.py:28-33 | mobile_no_set is the first-occurring numbers in cursor order |
| PhoneBook.CollectNamesKept | kvdroid/tools/contact.py:29-32 | the dict's keys are the names in the order of their first kept number |
| PhoneBook.CollectListsKept | kvdroid/tools/contact.py:29-32 | each name's list is its kept numbers in cursor order |
| PhoneBook.DuplicateDropped | kvdroid/tools/contact.py:28 | a row whose number was seen before, under any name, changes nothing |
| PhoneBook.NewNumberKept | kvdroid/tools/contact.py:28-33 | a new number is appended to mobile_no_set and to its name's list, which is created if absent |
| PhoneBook.ValuesFlatten | kvdroid/contact.py:36 | `list(d.values())` has one list per key, in key order |
| PhoneBook.ValuesAreNumbers | kvdroid/contact.py:35-36 | the per-name lists together hold each kept number exactly once, with no duplicate |
| PhoneBook.ValuesShape | kvdroid/contact.py:35-36 | every per-name list is non-empty and holds only space-free numbers |
| ToolsContact.GetContactDetails | kvdroid/tools/contact.py:4-45 | a null cursor gives None without checking the option; otherwise an unknown option raises TypeError, and each known option returns mobile_no_set, the dict's keys or the dict |
| ToolsContact.ReturnedListsDistinct | kvdroid/tools/contact.py:28-33 | the "mobile_no" and "names" results contain no duplicates |
| Contact.GetContactDetails | kvdroid/contact.py:5-28 | a null cursor gives an empty dict; otherwise the dict the loop builds, whose keys are distinct and are exactly its items' keys |
| Contact.GetContactNames | kvdroid/contact.py:31-32 | the names are exactly the dict's keys, in order, with no duplicates |
| Contact.GetContactNumbers | kvdroid/contact.py:35-36 | one list per name, in key order, list i being the kept numbers of name i; together they hold exactly the kept numbers, none twice, each list non-empty and space-free |
| Fonts.GetSystemFont | kvdroid/tools/font.py:86-112 | the nested loops compute the fold of the per-font tags into the table |
| Fonts.FillSlot | kvdroid/tools/font.py:101-111 | the weight/name chain sets exactly the slot `SlotOf` chooses to "/system/fonts/" + basename |
| Fonts.SystemFont | kvdroid/tools/font.py:123-124 | KeyError exactly when no font's prefix is the name; otherwise the entry that summarises the fonts of that prefix |
| Fonts.LastMatch | kvdroid/tools/font.py:103-111 | a slot is empty exactly when no font of the family fills it |
| Fonts.LastMatchIsLast | kvdroid/tools/font.py:100-111 | a filled slot holds the path of a matching font with no later matching font, so the last one wins |
| Fonts.TableKeys | kvdroid/tools/font.py:92-99 | the table has no key twice, its keys are the dict's keys, and they are exactly the family prefixes of the fonts |
| Fonts.EntriesAreSummaries | kvdroid/tools/font.py:92-111 | each entry is created once with empty slots and then holds, per slot, the last matching path |
| Fonts.OtherWeightFillsNothing | kvdroid/tools/font.py:92-101 | a font of any other weight creates its entry if needed but fills no slot |
| Storage.RootDirectory | kvdroid/tools/storage.py:491-513 | only '*' can fail, and DCIM is chosen only by the name dcim in any case |
| Storage.RootDirectoryFailsIff | kvdroid/tools/storage.py:492-493 | the helper fails (ValueError) exactly for '*' with a MIME type that has not exactly one '/' |
| Storage.WildcardFollowsMime | kvdroid/tools/storage.py:492-501 | with '*', image/video/audio choose Pictures/Movies/Music and anything else Documents |
| Storage.WildcardNeverDownloads | kvdroid/tools/storage.py:492-513 | '*' never chooses Downloads or DCIM |
| Storage.RootDirectoryIgnoresCase | kvdroid/tools/storage.py:502-513 | root names match case-insensitively |
| Storage.RootNameRoundTrip | kvdroid/tools/storage.py:502-513 | each of the six roots is chosen by its own name and by no other root's name |
| Storage.FileMimeType | kvdroid/tools/storage.py:473-488 | the MIME type is never empty |
| Storage.FileMimeTypeShape | kvdroid/tools/storage.py:475-487 | the result is either the non-empty answer of the lookup for the lower-cased extension, or a made-up type with exactly one '/' |
| Storage.FileMimeTypeFallbacks | kvdroid/tools/storage.py:475-487 | no extension gives application/unknown; a miss gives application/ plus the extension in its original case; a Java error gives application/unknown |
| Storage.WildcardFailsOnlyOnLookup | kvdroid/tools/storage.py:475-501 | '*' can fail only on a MIME type the lookup itself supplied |
| Storage.RootUri | kvdroid/tools/storage.py:516-528 | a chosen collection is on the volume asked for |
| Storage.CollectionIff | kvdroid/tools/storage.py:516-528 | each collection is chosen exactly for its roots: Downloads from API 29, Images for Pictures and image DCIM files, Video for Movies and the other video DCIM files, Audio for Music, Files for Documents and the remaining DCIM files |
| Storage.RootUriNoneIff | kvdroid/tools/storage.py:517-518 | there is no collection exactly for Downloads below API 29 |
| Storage.DcimByMime | kvdroid/tools/storage.py:519-528 | DCIM goes to Images, Video or Files by the MIME type; the other roots ignore the MIME type |
| Storage.NormalizeVolume | kvdroid/tools/storage.py:372-374 | the volume becomes "internal" when it lower-cases to that, "external" otherwise |
| Storage.NormalizeVolumeStable | kvdroid/tools/storage.py:214-216 | normalising is idempotent and ignores case |
| Storage.Pre29Directory | kvdroid/tools/storage.py:436-444 | the directory ends with sub_dir when given, otherwise with the app name (or this app's name), unless that part is absolute |
| Storage.Pre29Layout | kvdroid/tools/storage.py:436-444 | below a storage root not ending in '/', such as /storage/emulated/0, the directory is storage / root / (app name or this app's name) / sub_dir when given |
| Storage.GetUriStart | kvdroid/tools/storage.py:369-371 | get_uri returns None at once exactly below API 29 for a root named downloads/download in any case |
| Storage.SearchPath | kvdroid/tools/storage.py:378-395 | from API 29 the matched location ends in '/'; before, the matched path ends with the file name |
| Storage.GuardedRoot | kvdroid/tools/storage.py:369-371 | past the guard, a root resolved to Downloads implies API 29 or later |
| Storage.GuardSuffices | kvdroid/tools/storage.py:365-395 | whenever get_uri goes on to query, it has a content URI on a normalised volume |
| Storage.GuardNeeded | kvdroid/tools/storage.py:365-371 | every input the guard rejects names Downloads below API 29, for which there is no collection to query |
| Base.EventLoop.constructor | kvdroid/base.py:6-14 | a new loop has quit False, status "idle", every flag False and nothing dispatched |
| Base.EventLoop.Poll | kvdroid/base.py:20-34 | a poll updates the flags and appends the dispatched events as `PollStep` says, leaving quit and status alone |
| Base.EventLoop.Close | kvdroid/base.py:36-38 | close sets quit and status "destroyed" and changes nothing else |
| Base.EventLoop.Mainloop | kvdroid/base.py:16-18 | the loop polls while quit is False and status is "created", as `Run` says |
| Base.PollOrder | kvdroid/base.py:20-34 | a poll dispatches in the order resume, destroy, pause, so at most one event of each kind |
| Base.ResumeCheck | kvdroid/base.py:21-24 | on_resume fires exactly when the activity is resumed and the flag is False; it takes the activity's value and clears paused |
| Base.DestroyCheck | kvdroid/base.py:26-29 | on_destroy fires exactly when the activity is destroyed and the flag is False; it takes the activity's value and clears resume |
| Base.PauseCheck | kvdroid/base.py:31-34 | on_pause fires exactly when the window has no focus and paused is False after the resume check; it sets paused and clears resume |
| Base.PausedNoRepeat | kvdroid/base.py:31-34 | a paused loop does not fire on_pause again unless on_resume fires first in the same poll |
| Base.ResumedWithoutFocus | kvdroid/base.py:21-34 | for an activity that is resumed, not destroyed and without window focus, a poll from a False resume flag fires on_resume then on_pause and leaves the flag False, so the next poll does the same |
| Base.StoppedLoopIsFinal | kvdroid/base.py:16-18 | a closed loop, or one never marked "created", polls no more |
| Base.RunExtendsLog | kvdroid/base.py:16-18 | mainloop only appends to the log, leaves the status alone or sets it to "destroyed", and changes quit only when it destroys the loop |
| Base.NothingAfterClose | kvdroid/app.py:80-82 | App.stop dispatches on_destroy and closes the loop; after it nothing more is dispatched |
| Base.LogBound | kvdroid/base.py:16-34 | each input (a poll, or App.stop) adds at most three events |

## Left out

- Reading image files (`load_image_bytes`) and the demonstration block's file writes are I/O. The block's byte literals are used as the sample constants.
- The contacts query is an input. Rows are (display name, number) pairs, and a null cursor is `None`. Column lookup, `cursor.close()` and the Java bridge are not modelled.
- `get_contact_details` of `kvdroid/tools/contact.py` takes the option as a parameter, so its default "phone_book" is not modelled.
- A Java `null` name or number from the cursor is not modelled: rows are strings.
- The font XML is given already parsed: a sequence of families, each a sequence of (text, weight) elements. ElementTree, the path choice by API level and `register_system_font` (Kivy) are left out.
- A `<font>` element without text (`font.text` None, which makes `strip()` raise) is not modelled.
- `PyText.Lower` lower-cases ASCII letters only. Python's `str.lower` also maps non-ASCII capitals.
- `PyText.StripTrimmed` uses the whitespace characters of `str.isspace` up to U+3000. It does not use the Unicode database.
- The `Environment.DIRECTORY_*` values are a parameter, and `_get_root_directory` returns an enumeration.
- `Storage.RootUri` compares roots as enumeration values. The source compares the strings, so it assumes the six directory names are distinct.
- `MimeTypeMap` is a function parameter. Its answer is a string, `null`, or a Java exception.
- The MediaStore collections' `getContentUri` is a constructor `ContentUri(collection, volume)`.
- `api_version`, `primary_external_storage_path()` and `_app_name()` are parameters.
- `get_uri` is modelled up to the point where it queries, as `Storage.GetUriStart`. The query, the selection strings, the cursor loop and the JavaException handler are I/O.
- Of `insert`, only the volume normalisation is modelled. Its file checks, delete, ContentValues and stream copy are I/O.
- `delete`, `retrieve`, `retrieve_uri`, `_create_pre_29_directory`, `_save_to` and `PrivateStorage` are file and resolver I/O.
- Base.EventLoop.Mainloop: runs over a finite sequence of inputs and also returns when they run out. The source loops until the loop is closed. Each input is one poll, or an `App.stop()` between polls, which dispatches on_destroy and closes the loop.
- A handler that closes the loop in the middle of a poll is not modelled. In the source, the remaining checks of that poll would still run.
- `app.dispatch` is recorded as an event log. What the handlers do is outside the model.
- `App.get_running_app()` and the `app` field are left out. The activity's `resume` and `destroyed` attributes are taken to be booleans.
- Everything else in the repository is not part of this model. This covers notifications, ExoPlayer, the pyjnius class wrappers, device info, UI and service helpers, and the rest of `kvdroid/app.py` (only `App.stop` is modelled, as an input of the loop). These are calls into Android or Kivy with no logic of their own.
