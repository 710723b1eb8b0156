# PyPdfApp core, modelled in Dafny

PyPdfApp is a desktop PDF editor. This project models the bookkeeping behind its
GUI and the decisions in its save and signature pipelines:

- `Utils` (utils.py): `PDF_Doc_Instance`, the editing session of one open document, is a
  class. Its three per-page markup lists are `seq` fields. `PDF_Queue`, the
  insertion-ordered registry of open documents keyed by display name, is a class whose
  dictionary is a `seq` of entries. Adding a name that is already taken gives the key
  `name | n`. Removing an entry renumbers its same-name siblings.
- `Document` is the PyMuPDF document as the application uses it: a sequence of pages
  (content, rotation, wrapped flag, overlays). It also holds the library calls the core
  makes (`set_rotation`, `move_page`, `delete_page`, `insert_page`, `insert_pdf`).
- `Manipulate` (manipulate.py) and `Merge` (merge.py): the page operations, as classes
  that change the held document in place. `Merge` also has the temporary-file title.
- `Save` (save.py): `save_pdf` produces an operation trace. The trace covers the
  metadata update, the two writes and the per-page annotation calls. The method also
  updates the session's metadata.
- `Sign` (sign.py): the 128-byte signature artifact, the key file name, `is_url`, key
  generation, signing and the verification decision. ECDSA, SHA-256 and the key
  protection are a `Scheme` of uninterpreted functions. The predicates `Correct`,
  `FixedLength` and `Binding` state the properties a proof needs.
- `PyPdfGui` (pypdfgui.py): the effect of the event handlers on the queue and on the
  current session. This covers navigation, page insert and delete, the compression and
  encryption toggles, the markup strokes, opening documents, and closing the current
  one, including which document is selected next.
- `Gui` (gui.py): `GUI_Menu`.
- `TamperCheck` (utility-apps/tamper_check.py): the version gate and the comparison of
  the published and the local digests.
- `Strings` holds the parts of Python's `str` that these rely on: `find`, `split`,
  `replace`, `lower`, `title`, `int()`, `str(n)` and string ordering. `Wrappers` holds
  `Option`, `Result` and `Outcome`.

Behaviour the model pins:

- Signatures use the randomised FIPS 186-3 mode (sign.py:79-80), so `sign` takes a
  nonce argument. They are not deterministic.
- Verification stops after a failed name check (sign.py:103-121). It does not run both
  checks.
- `save_pdf` writes the document once without encryption before the markup is
  committed (save.py:52). The final write follows the markup.
- Filename normalisation lower-cases the whole name and removes every `.pdf` in it (save.py:36). It does not only strip a suffix.
- The tamper report's line for an extra file reads `is authorized.`
  (utility-apps/tamper_check.py:73).

Inputs the program gets from the outside world are parameters of the model:

- dialog answers;
- `str(datetime.today())` and `str(date.today())`;
- the directory listing;
- the MD5 function;
- the fetched release data;
- the local files and web resources, which are a `Store`;
- how the server answers the POST: accepted, refused, or no answer;
- the signer's nonces.

## Model

| member | source | states |
|---|---|---|
| Document.SetRotation | manipulate.py:50 | `page.set_rotation(angle)`: the angle is normalised and only that page changes. `Manipulate.Rotated` states it. |
| Document.MovePage | manipulate.py:61 | `move_page(pno, to)`: `Document.MovePagePermutes` states that a successful move only reorders the pages, and `Manipulate.MoveUpSwaps` which pages trade places. |
| Document.InsertPdf | merge.py:42-48 | `insert_pdf` with its page-number clipping. `Document.InsertPdfRange`, `Document.InsertPdfAppend` and `Document.InsertPdfNegative` state which pages are copied and where they go. |
| Document.NormRotation | manipulate.py:50-54 | The stored angle is one of 0, 90, 180, 270. For a multiple of 90 it is congruent to the requested angle modulo 360. |
| Document.RightAngleModulo | manipulate.py:47-54 | A multiple of 90 reduced modulo 360 is a normal angle congruent to it. |
| Document.MovePagePermutes | manipulate.py:58-61 | A successful `move_page` only reorders the pages (same multiset). |
| Document.Reverse | merge.py:68 | The reversal has the same length, with element k taken from position len-1-k. It is used for the descending copy `insert_pdf` makes. |
| Document.InsertPdfRange | merge.py:44-48 | `insert_pdf` with in-range page numbers splices `src[from..to]` into the document at `start_at`. |
| Document.InsertPdfAppend | merge.py:68-71 | `insert_pdf` without `start_at` appends the range, and without `to_page` it appends up to the last page. |
| Document.InsertPdfNegative | merge.py:40-42 | Every negative `to_page` means the last page, and every negative `from_page` means page 0. |
| Manipulate.Rotated | manipulate.py:47-54 | Only page i changes, and only its rotation. The new rotation is normal and equals old + delta modulo 360. |
| Manipulate.RotateRightThenLeft | manipulate.py:47-54 | `rotate_r` then `rotate_l` on a page restores the document. |
| Manipulate.RotateLeftThenRight | manipulate.py:47-54 | `rotate_l` then `rotate_r` on a page restores the document. |
| Manipulate.MovedProperties | manipulate.py:58-61 | Outside the guard `0 <= from <= len` nothing changes. A successful move is a permutation. |
| Manipulate.MoveFromEndPassesGuard | manipulate.py:60-61 | `from_page == len(doc)` passes the guard, and the library then refuses it. |
| Manipulate.MoveUpSwaps | manipulate.py:58-61 | Moving page i before page i-1 swaps the two pages. |
| Document.CountFromEnd | manipulate.py:65-67 | The library's loop that adds the page count to a negative page number ends with that number modulo the count. A non-negative number is kept. |
| Document.PageIndex | manipulate.py:49 | `doc[pno]`: a position it gives names a page. `Manipulate.PageIndexFromEnd` states when the lookup succeeds, which page a negative number names, and that a negative number on an empty document never returns. |
| Document.DeletePage | manipulate.py:67 | `delete_page(pno)`. `Manipulate.DeleteRemovesPage` states when it succeeds, that it then removes exactly the page `doc[pno]` names, and its errors. |
| Document.InsertPage | manipulate.py:73 | `insert_page(pno)`. `Manipulate.InsertAddsBlank` states when it succeeds and where the blank page goes. |
| Manipulate.PageIndexFromEnd | manipulate.py:47-50 | `doc[i]` names a page iff i is below the page count and the document has pages. A non-negative i names itself, and -1 down to -len(doc) count back from the last page. On an empty document a negative i never returns. |
| Manipulate.DeleteRemovesPage | manipulate.py:65-67 | `delete_page` succeeds iff i is below the page count and the document has pages. It then removes exactly the page `doc[i]` names and shifts the later pages left. A negative i on an empty document never returns, and -1 down to -len(doc) delete the same page as i + len(doc). |
| Manipulate.InsertAddsBlank | manipulate.py:71-73 | `insert_page(i)` succeeds iff `-1 <= i <= len`. For i >= 0 it puts a blank page at i, the count grows by one and later pages shift right. `-1` appends the page at the end. |
| Manipulate.WatermarkAll | manipulate.py:84-90 | Every page is wrapped and gets the image as one more overlay. Its content and rotation are kept, and the page count is unchanged. |
| Manipulate.CreateBlankPdf | manipulate.py:92-96 | The new document has exactly one blank page, with no overlays. |
| Manipulate.PdfManipulator.constructor | manipulate.py:33-39 | `get()` returns the document passed in. The save path is stored. |
| Manipulate.PdfManipulator.RotateL | manipulate.py:47-50 | The page `doc[page_i]` names, negative indexes counted from the end, is turned by -90 and nothing else changes. An index at or past the end raises IndexError, and a negative one on an empty document never returns; the document stays as it was. |
| Manipulate.PdfManipulator.RotateR | manipulate.py:51-54 | The same, turning by +90. |
| Manipulate.PdfManipulator.Move | manipulate.py:58-61 | The new document is the guarded move of the old one. A refused move reports the library's error and changes nothing. |
| Manipulate.PdfManipulator.Delete | manipulate.py:65-67 | The new document is the `delete_page` result for any int page_i. Its error, ValueError or a call that never returns, leaves the document unchanged. |
| Manipulate.PdfManipulator.Insert | manipulate.py:71-73 | The new document is `insert_page(i)` of the old one: a blank page at i, or at the end for `-1`. Any other index outside the document is an error and changes nothing. |
| Manipulate.PdfManipulator.Watermark | manipulate.py:77-90 | With `all_pages` False, only the page `doc[page_i]` names is wrapped and overlaid, negative indexes counted from the end. Otherwise the lookup's error, with no change. With `all_pages` True, every page is watermarked and `page_i` is not read. |
| Merge.Slice | merge.py:17-22 | Python slicing with clipped bounds. It is the exact slice within range and empty past the end. |
| Merge.CalculatePdfTempTitle | merge.py:14-23 | For a timestamp `YYYY-MM-DD HH:MM:SS...`, the title is `YYYY-MM-DD_HH-MM-SS.pdf`: 23 characters, fields copied by position. It always ends in `.pdf`. |
| Merge.InsertWhole | merge.py:51-60 | Inserting a whole document behind the last page appends all its pages. |
| Merge.RemovedPage | merge.py:62-74 | `remove_page` as written. `Merge.RemoveRaisesIff`, `Merge.RemoveInterior`, `Merge.RemoveAtLength`, `Merge.RemoveFirst`, `Merge.RemoveNegative` and `Merge.RemoveLastPageKept` state its result case by case. |
| Merge.RemoveRaisesIff | merge.py:64-65 | `remove_page` raises IndexError iff `page_i > len(doc)`. |
| Merge.RemoveInterior | merge.py:66-72 | For `0 < page_i < len - 1`, the result is the document without page `page_i`. |
| Merge.RemoveAtLength | merge.py:65-72 | `page_i == len(doc)`: the prefix copy is the whole document, so nothing is removed. |
| Merge.RemoveFirst | merge.py:66-71 | `page_i == 0`: `to_page = -1` copies the whole document, followed by the pages from page 1 on. A one-page document is doubled. |
| Merge.RemoveNegative | merge.py:64-71 | A negative index copies the whole document twice. |
| Merge.RemoveLastPageKept | merge.py:62-74 | As written, removing the last page of a document of two or more pages returns the document unchanged. |
| Merge.SplicedOut | merge.py:62-63 | The removal the docstring describes. `Merge.SplicedOutRemovesPage` states that it drops exactly the page at a valid index, and `Merge.RemovedAgreesInside` where it agrees with `remove_page`. |
| Merge.SplicedOutRemovesPage | merge.py:62-63 | The intended removal succeeds iff the index is in range. It then drops exactly that page (a multiset with one page fewer) and keeps the others in order. |
| Merge.RemovedAgreesInside | merge.py:66-72 | As written and as intended agree for every index except the first and the last page. |
| Merge.AddedPages | merge.py:35-48 | `add_pages` on the document. `Merge.AddSinglePage`, `Merge.AddPagesToEnd` and `Merge.AddPageRange` state which source pages are inserted for each form of `end_page`. |
| Merge.AddSinglePage | merge.py:37-38 | With `end_page=None`, `add_pages` inserts only page `start_page` at `start_i`. |
| Merge.AddPagesToEnd | merge.py:40-42 | With `end_page == -1`, `add_pages` inserts `start_page` through the last page at `start_i`. |
| Merge.AddPageRange | merge.py:43-48 | With an explicit end page, `add_pages` inserts the inclusive range. The length grows by `end - start + 1`. |
| Merge.AddWholeDocument | merge.py:51-60 | `add_pdf` and `add_fitz_doc` insert every source page at `start_i`. The new length is the sum of both lengths. |
| Merge.PdfMerger.constructor | merge.py:27-29 | `get()` returns the document passed in. |
| Merge.PdfMerger.AddPages | merge.py:35-49 | The document becomes the `add_pages` result for the given range or single page. |
| Merge.PdfMerger.AddPdf | merge.py:51-55 | The document becomes the old one with all source pages inserted at `start_i`. |
| Merge.PdfMerger.AddFitzDoc | merge.py:57-60 | The document becomes the old one with all source pages inserted at `start_i`. |
| Merge.PdfMerger.RemovePage | merge.py:62-74 | The document becomes the prefix copy followed by the suffix copy, as written. Past the end it raises IndexError and the document is unchanged. |
| Utils.InsertPosition | utils.py:29-31 | The position `list.insert` uses: a negative index counts from the end and the result is clipped to [0, len]. |
| Utils.ListIndex | utils.py:34-36 | `l[i]` and `del l[i]` are valid iff `-len <= i < len`. The position is i, or len + i. |
| Utils.ListInsert | utils.py:29-31 | `list.insert(i, x)`. `Utils.ListInsertProperties` states that it adds exactly x at `Utils.InsertPosition` and keeps the rest in order. |
| Utils.ListDelete | utils.py:34-36 | `del l[i]`. `Utils.ListDeleteProperties` states that it succeeds iff i is valid and then removes exactly that element. |
| Utils.ListInsertProperties | utils.py:27-31 | `insert` adds exactly one element at its position and keeps the others in order. |
| Utils.ListDeleteProperties | utils.py:32-36 | `del` succeeds iff the index is valid. It then removes exactly that element. |
| Utils.BaseName | utils.py:17 | `os.path.split(path)[-1]`. `Utils.BaseNameSuffix` and `Utils.BaseNameWithoutSlash` state it. |
| Utils.BaseNameSuffix | utils.py:17 | POSIX `os.path.split(path)[-1]` is the longest suffix free of '/'. |
| Utils.BaseNameWithoutSlash | utils.py:17 | A path without '/' is its own base name. |
| Utils.EmptySlots | utils.py:22-24 | n per-page lists, all empty. |
| Utils.PdfDocInstance.constructor | utils.py:11-26 | A new session has its name from the path, both compress flags off, `page_i` 0, not modified, the initial metadata, and one empty markup list per page in each of the three lists. |
| Utils.PdfDocInstance.AddPageData | utils.py:27-31 | An empty slot is inserted at the index in all three lists. Parallel lists stay parallel and grow by one. |
| Utils.PdfDocInstance.RemovePageData | utils.py:32-36 | The slot is deleted from each list in turn, and an IndexError stops at the list that raised it. Parallel lists stay parallel and shrink by one on success. |
| Utils.KeyOf | utils.py:54-57 | The key `add_pdf` forms: the name, or the name with a bar and the number j. `Utils.KeyOfInjective`, `Utils.NumberedKeyInjective` and `Utils.KeyPartsOfKey` state that keys are distinct and read back. |
| Utils.SplitKeyOf | utils.py:64-72 | How the two key splits of `remove_pdf` take a bare or a numbered key apart, for a name without the bar character. |
| Utils.KeyPartsOfKey | utils.py:72-74 | `remove_pdf` reads the name and number of a key back as they were formed. |
| Utils.KeyOfInjective | utils.py:54-57 | Different names without the bar character, or different numbers, give different keys. |
| Utils.NumberedKeyInjective | utils.py:54-57 | Within one name, different numbers give different keys. |
| Utils.RemovedIndexOfKey | utils.py:64-68 | The number `remove_pdf` reads from the removed key is its suffix, or 0 for a bare name. |
| Utils.NumberedKeysBound | utils.py:53-55 | The counter in `add_pdf` cannot pass the queue's size, so the loop ends. |
| Utils.KeysOf | utils.py:95-98 | The keys of the queue, in insertion order. |
| Utils.IndexOfKey | utils.py:111-113 | A key is found iff it is in the queue, and then at its only position. |
| Utils.PutProperties | utils.py:50-56 | Dictionary assignment keeps the keys distinct. A new key goes at the end, and an existing key keeps its place. |
| Utils.Rebuild | utils.py:70-88 | The queue `remove_pdf` builds. `Utils.RebuildQueue` states that the loop computes it, and `Utils.RemovePdfRenumbers` how the keys of the removed name are renumbered. |
| Utils.RebuildQueue | utils.py:70-88 | The loop of `remove_pdf` computes the rebuilt queue and stops at the first `int()` ValueError. |
| Utils.UnsavedKeysExact | utils.py:104-110 | `get_unsaved` lists a key iff its session is modified. |
| Utils.PdfQueue.constructor | utils.py:42-43 | A new queue is empty. |
| Utils.PdfQueue.IsEmpty | utils.py:44-45 | True iff there are no keys. |
| Utils.PdfQueue.Get | utils.py:111-113 | Succeeds iff the key is present and returns its session. Otherwise KeyError. |
| Utils.PdfQueue.AddPdf | utils.py:46-59 | A non-instance raises and leaves the queue unchanged. Otherwise the key is fresh and appended with its session: the bare name if unused, else `name` joined to n by the separator for the smallest unused n >= 1. Keys stay distinct. |
| Utils.PdfQueue.RemovePdf | utils.py:60-88 | The queue becomes the removal result. A missing key (KeyError) or an unreadable number (ValueError) changes nothing. |
| Utils.PdfQueue.SetUnsaved | utils.py:89-91 | The session under the key is marked modified, and no other session's flag changes. A missing key raises KeyError. |
| Utils.PdfQueue.SetSaved | utils.py:92-94 | The session under the key is marked saved, and no other session's flag changes. A missing key raises KeyError. |
| Utils.PdfQueue.GetKeys | utils.py:95-103 | One label per entry in insertion order, with `*` before the key exactly when its session is modified. |
| Utils.PdfQueue.GetUnsaved | utils.py:104-110 | The keys of the modified sessions, in queue order. |
| Utils.ExpectedDistinct | utils.py:70-88 | After a removal with renumbering, the keys are still distinct. |
| Utils.RebuildAppends | utils.py:70-88 | On a queue built by `add_pdf`, the loop builds the expected renumbered queue. |
| Utils.ExpectedOneRemoved | utils.py:81-82 | Exactly the removed entry is dropped. The others keep their order with renumbered keys. |
| Utils.RemovePdfRenumbers | utils.py:60-88 | On a registry built by `add_pdf`: removal succeeds and the size drops by one. Other names and lower siblings keep their keys, higher siblings move down by one, and the key numbered 1 becomes `name`. Order is kept and keys stay distinct. |
| Utils.RemovePdfKeepsDense | utils.py:60-88 | If a name's keys are exactly the bare name and the numbers 1 to c-1, then afterwards they are exactly the first c-1 of those. |
| Save.FirstNamed | save.py:28-30 | The first dialog answer that names a file. Every earlier one is cancelled or empty. |
| Save.PromptAnswer | save.py:28-35 | A forced save is never cancelled: it ends with the first non-empty name, or is still asking when the answers run out. An unforced save takes the first answer, and a cancelled or empty one ends the save. |
| Save.NormaliseFilename | save.py:36 | The path is lower-case and ends in `.pdf`. Without `.pdf` in the lowered name it is that name plus `.pdf`. |
| Save.NormaliseSuffix | save.py:36 | A stem without `.pdf` followed by a `.pdf` suffix in any letter case becomes the lowered stem plus `.pdf`. |
| Save.NormaliseReport | save.py:36 | `Report.PDF` becomes `report.pdf`. |
| Save.Compression | save.py:37-44 | `garbage` is 4 iff `compress_max`, else 0. `deflate` iff `compress_basic` or `compress_max`. |
| Save.SavedMetadata | save.py:46-49 | A missing title becomes the titled file stem, and an existing one is kept. Both dates are today, and the other keys are kept. |
| Save.FinalEncryption | save.py:71-95 | Encrypted iff the password is set and non-empty. The method is AES-256, owner and user password are both the password, and the permissions are exactly accessibility, print, copy and annotate. |
| Save.PageOps | save.py:54-68 | One page's calls: its ink, one redaction per rectangle, `apply_redactions`, then one highlight per rectangle. |
| Save.AnnotationsOrdered | save.py:54-68 | Between the writes there are only markup calls, for pages below k, in non-decreasing page order. |
| Save.AnnotationsPerPage | save.py:54-68 | The calls for page p are exactly that page's block. |
| Save.AnnotationsInSync | save.py:54-57 | With one markup slot per page, the annotation pass completes. |
| Save.SavePlan | save.py:15-96 | Everything one `save_pdf` call does. `Save.SaveWithoutName`, `Save.SaveCompleted` and `Save.ResaveSameMarkup` state its outcomes. |
| Save.WritePlan | save.py:36-96 | The part after the file name is known. `Save.SaveCompleted` states a completed save through it, and `Save.SaveTo` is the method it specifies. |
| Save.SaveWithoutName | save.py:28-35 | The save returns None iff it is unforced and the one answer is cancelled or empty. It is still prompting iff the answers run out first: for a forced save, when none of them names a file. Both make no call and leave the metadata unchanged. |
| Save.SaveCompleted | save.py:36-96 | A completed save returns the normalised path. It sets the metadata, writes plain, commits the markup, and writes last, encrypted iff the password is non-empty. There are exactly two writes. |
| Save.ResaveSameMarkup | save.py:15-96 | Saving again commits the same annotation calls. |
| Save.AskFileName | save.py:28-35 | The prompt loop ends as `PromptAnswer` describes: with a name, cancelled, or still asking. |
| Save.CommitPage | save.py:56-68 | One page's block of calls, or the calls made before a missing list raises. |
| Save.CommitMarkup | save.py:54-68 | The page loop makes exactly the calls of the annotation pass. |
| Save.SavePdf | save.py:15-96 | The result, the calls and the new metadata are those of the save plan. Of the session's fields, only the metadata is changed by the model. |
| Save.SaveTo | save.py:36-96 | The same, from the normalised file name on. |
| Sign.Utf8Char | sign.py:75 | UTF-8 uses 1 to 4 bytes, and exactly one for ASCII. |
| Sign.Latin1 | sign.py:62 | Latin-1 encoding succeeds iff every character is below U+0100. Each byte is then its character's code. |
| Sign.AsciiEncodingsAgree | sign.py:62-78 | On ASCII text, Latin-1 and UTF-8 give the same bytes. |
| Sign.AsciiEncodingInjective | sign.py:75-99 | Distinct ASCII names hash different bytes. |
| Sign.StoreBins | sign.py:17-22 | The file holds bin1 followed by bin2, and no other file changes. |
| Sign.ReadBins | sign.py:23-28 | Two reads of at most 64 bytes each, together the first 128 bytes. A missing file is OSError. |
| Sign.StoreReadRoundTrip | sign.py:17-28 | Two 64-byte chunks read back as they were stored. |
| Sign.IsUrl | sign.py:30-32 | `is_url`. `Sign.IsUrlIff` and `Sign.IsUrlOpenBracket` state when it raises and when it is true. |
| Sign.IsUrlIff | sign.py:30-32 | `is_url` raises ValueError exactly when the netloc holds one square bracket without the other. Otherwise it holds iff the cleaned text starts with `http:` or `https:` in any letter case. |
| Sign.IsUrlOpenBracket | sign.py:30-32 | An http URL whose host holds `[` and no `]` makes `is_url` raise ValueError. |
| Sign.LoadResource | sign.py:34-44 | A URL is fetched and anything else read as a file. Missing ones are OSError, and the ValueError of `is_url` propagates. |
| Sign.PostResource | sign.py:46-54 | A file is written and a URL posted to. A refused POST reports `Upload failed.` and stores nothing. A POST with no answer raises. The ValueError of `is_url` propagates. |
| Sign.PostThenLoad | sign.py:34-54 | After a successful `post_resource`, `load_resource` returns the posted data, except after a refused POST, which leaves the resource as it was. |
| Sign.PrivateKeyFileName | sign.py:60-68 | The user name with every space replaced by `_`, followed by `_private_key.pem`. |
| Sign.GenSignatureKeys | sign.py:56-68 | Key generation. `Sign.GenStored`, `Sign.GenNonAsciiStore`, `Sign.GenRejectsWideChar` and `Sign.GenPostRaises` state what it stores and when it fails. |
| Sign.SignPdf | sign.py:70-85 | Signing. `Sign.SignLayout` states the artifact it writes, and `Sign.SignWrongPassphrase` when it raises. |
| Sign.VerifyPdfSignature | sign.py:87-121 | Verification. `Sign.VerifyRejectsSize` and `Sign.VerifyDecision` state its answer, and `Sign.SignThenVerify` the round trip with `sign_pdf`. |
| Sign.VerifyRejectsSize | sign.py:90-91 | An artifact that is not 128 bytes gives the tamper warning, with no signature checked. |
| Sign.VerifyDecision | sign.py:94-121 | The name signature (bytes 64-128) is checked first. The result is valid iff both signatures verify. A failed name check gives only the signer warning and skips the data check. A failed data check gives only the data warning. |
| Sign.SignLayout | sign.py:70-85 | `sign_pdf` writes only the artifact: 128 bytes, the data signature then the name signature. |
| Sign.SignThenVerify | sign.py:70-109 | Signing, then verifying with the same name, the same PDF and the matching public key, is valid. |
| Sign.VerifyWrongName | sign.py:103-121 | Verifying under another name gives the signer warning only. |
| Sign.VerifyWrongAsciiName | sign.py:103-121 | The same for any two distinct ASCII names, with no assumption about their encodings. |
| Sign.VerifyChangedPdf | sign.py:106-114 | Verifying after the PDF changed gives the data warning only. |
| Sign.GenSignVerifyAscii | sign.py:56-109 | With a non-empty ASCII passphrase: generating keys, signing and verifying is valid. The key paths returned are the ones given. |
| Sign.GenStored | sign.py:56-68 | As written, with a passphrase that encodes and a location that takes the key, key generation returns the given paths and protects the key file with the Latin-1 passphrase. The public key is loadable unless the POST was refused, and other files are kept. |
| Sign.EacuteEncodings | sign.py:62-78 | U+00E9 is 0xE9 in Latin-1 and 0xC3 0xA9 in UTF-8. |
| Sign.GenNonAsciiStore | sign.py:56-68 | With the passphrase U+00E9, key generation succeeds and protects the key with the byte 0xE9. |
| Sign.GenThenSignNonAscii | sign.py:61-78 | As written, after key generation with passphrase U+00E9, signing with the same passphrase fails. |
| Sign.SignWrongPassphrase | sign.py:70-78 | `sign_pdf` with a passphrase whose UTF-8 bytes differ from the protecting ones raises ValueError and changes nothing. |
| Sign.GenRejectsWideChar | sign.py:60-64 | A passphrase character past U+00FF makes key generation fail, after the key file was created empty. |
| Sign.GenPostRaises | sign.py:56-67 | A public-key location that `is_url` refuses, or a URL with no answer, makes key generation raise after the private key was written. |
| Sign.GenSignVerifyUtf8 | sign.py:56-109 | With the passphrase encoded the same way on both sides, generating, signing and verifying is valid for every non-empty passphrase. |
| Sign.GenUtf8Stored | sign.py:56-68 | The intended key generation returns the given paths, stores the public key where a later load finds it, and writes the key file with the UTF-8 passphrase. |
| Strings.Split | utils.py:64 | `str.split(sep)`. `Strings.SplitWithoutBar`, `Utils.SplitNumbered` and `Utils.SplitKeyOf` state how the key splits split. |
| Strings.Replace | save.py:36 | `str.replace`. `Strings.ReplaceNotFound`, `Strings.ReplaceBeforeTail`, `Strings.ReplaceChars` and `Strings.ReplaceOneChar` state it. |
| Strings.Find | save.py:36 | `find` returns the leftmost occurrence. |
| Strings.ReplaceNotFound | save.py:36 | A text without the pattern is unchanged by `replace`. |
| Strings.ReplaceBeforeTail | save.py:36 | When the pattern starts nowhere in a prefix, `replace` leaves that prefix and works on the rest. |
| Strings.ReplaceChars | save.py:36 | A replacement's characters come from the input or the replacement text. |
| Strings.ReplaceOneChar | sign.py:60 | Replacing one character maps it everywhere. |
| Strings.Lower | save.py:36 | `lower` keeps the length, leaves no upper-case letter and changes nothing else. |
| Strings.TitleCases | save.py:47 | `title()` keeps the length. A letter right after a letter becomes lower-case, any other letter upper-case, and other characters are kept. |
| Strings.Title | save.py:47 | `str.title()` for ASCII. `Strings.TitleCases` states it character by character. |
| Strings.NatToString | utils.py:54-57 | `str(n)` is a non-empty string of digits. |
| Strings.DigitsOfNat | utils.py:76-80 | The formatted number reads back as the number. |
| Strings.NatToStringInjective | utils.py:54-57 | Different numbers give different text. |
| Strings.ParseInt | utils.py:66 | `int(s)` for decimal text. `Strings.ParseFormatted`, `Strings.ParseUnderscore` and `Strings.ParseBadUnderscores` state what it accepts and reads. |
| Strings.ParseFormatted | utils.py:66-76 | `int(str(n))` is n, also with the leading blank the second key split leaves. |
| Strings.ParseUnderscore | utils.py:66-67 | `int("1_0")` is 10. |
| Strings.ParseBadUnderscores | utils.py:66-67 | A doubled, leading or trailing underscore makes `int()` raise ValueError. |
| Strings.LexIrreflexive | utility-apps/tamper_check.py:63-64 | String `<` is irreflexive. |
| Strings.LexTransitive | utility-apps/tamper_check.py:63-64 | String `<` is transitive. |
| Strings.LexTotal | utility-apps/tamper_check.py:63-64 | Distinct strings are ordered one way or the other. |
| Strings.LexAsymmetric | utility-apps/tamper_check.py:63-64 | String `<` is asymmetric. |
| TamperCheck.PyFileHashes | utility-apps/tamper_check.py:21-28 | The map `generate_all_py_file_hashes` returns. `TamperCheck.PyFileHashesKeys` and `TamperCheck.PyFileHashesValue` state its keys and values. |
| TamperCheck.PyFileHashesKeys | utility-apps/tamper_check.py:24-27 | The keys are exactly the listed names ending in `.py`. |
| TamperCheck.PyFileHashesValue | utility-apps/tamper_check.py:26-27 | Each `.py` file maps to the digest of its text. |
| TamperCheck.GenerateAllPyFileHashes | utility-apps/tamper_check.py:21-28 | The loop builds exactly that map. |
| TamperCheck.InsertSorted | utility-apps/tamper_check.py:63-64 | Insertion keeps the list strictly sorted and adds exactly the element. |
| TamperCheck.SortKeys | utility-apps/tamper_check.py:61-64 | The sorted key list is strictly increasing and holds exactly the keys. |
| TamperCheck.SortedUnique | utility-apps/tamper_check.py:65 | Two sorted lists of the same keys are equal. Comparing the sorted lists therefore compares the key sets. |
| TamperCheck.SourceLinesMember | utility-apps/tamper_check.py:66-70 | The published-key loop reports `missing` iff the file is absent and `modified` iff its digest differs. |
| TamperCheck.ExtraLinesMember | utility-apps/tamper_check.py:71-73 | The local-key loop reports an extra line iff the key is not published. |
| TamperCheck.TamperLinesExact | utility-apps/tamper_check.py:65-73 | The warning names exactly the missing, the modified and the extra files. |
| TamperCheck.TamperLinesEmpty | utility-apps/tamper_check.py:60 | The warning is empty iff the two maps are equal. |
| TamperCheck.TamperLinesOrder | utility-apps/tamper_check.py:63-73 | Published-key lines come first, then the extra lines, each part in sorted key order. |
| TamperCheck.TamperLinesSameKeys | utility-apps/tamper_check.py:83-86 | When the key sets agree, every line is a `modified` line. |
| TamperCheck.ListSourceLines | utility-apps/tamper_check.py:66-86 | The published-key loop produces the published-key lines. |
| TamperCheck.ListExtraLines | utility-apps/tamper_check.py:71-73 | The local-key loop produces the extra lines. |
| TamperCheck.TamperMain | utility-apps/tamper_check.py:40-99 | A failed fetch reports no connection, and a missing version field is KeyError. A version mismatch reports the update message before any comparison. Equal maps report untampered, otherwise the tampering lines for the sorted keys. |
| PyPdfGui.IndexOf | pypdfgui.py:738 | `list.index` finds the first position of the value, or raises ValueError iff it is absent. |
| PyPdfGui.Labels | pypdfgui.py:736 | The bar's labels: one per entry, starred iff modified. |
| PyPdfGui.StripStarOfLabel | pypdfgui.py:762-765 | Removing every `*` from a label gives its key back. |
| PyPdfGui.SelectionLabelIsCurrent | pypdfgui.py:995-1002 | The label `update_file_select` picks is the current entry's label, found at its own position. |
| PyPdfGui.CloseSelectsNeighbour | pypdfgui.py:739-766 | After a close with several open, the selected session is the left neighbour, or the right one when the first was closed. |
| PyPdfGui.CloseReadsOwnPosition | pypdfgui.py:732-768 | In the state the handlers keep, closing reads the current entry's position and selects its neighbour's key. |
| PyPdfGui.NavigationStaysInRange | pypdfgui.py:661-672 | Navigation keeps a valid page index valid. It moves by one exactly when a page lies that way. |
| PyPdfGui.NavigationInverse | pypdfgui.py:661-672 | A step forward is undone by a step back, and conversely. |
| PyPdfGui.NewFileIsItsBaseName | pypdfgui.py:715-718 | The blank document's path `New File` is its own name. |
| PyPdfGui.App.constructor | pypdfgui.py:59-63 | No document is open: the queue is empty, `pdf_id` is None and the selection is "". |
| PyPdfGui.App.Current | pypdfgui.py:582 | `self.pdfs[self.pdf_id]` exists iff the id is a key, and is that key's session. |
| PyPdfGui.App.UpdateFileSelect | pypdfgui.py:995-1002 | The selection is the starred id when the bar shows it, else the id. |
| PyPdfGui.App.SetUnsaved | pypdfgui.py:572-577 | The current session becomes modified, and the bar is refreshed only if it was not modified before. No other session's flag changes. KeyError without a current session. |
| PyPdfGui.App.SetSaved | pypdfgui.py:566-571 | The current session becomes saved, and the bar is refreshed only if it was modified. No other session's flag changes. |
| PyPdfGui.App.PreviousPage | pypdfgui.py:661-666 | `page_i` decreases only when `page_i - 1 >= 0`. A valid index stays valid. |
| PyPdfGui.App.NextPage | pypdfgui.py:667-672 | `page_i` increases only when `page_i + 1 <= len - 1`. A valid index stays valid. |
| PyPdfGui.App.EventInsertPage | pypdfgui.py:1330-1337 | The session is marked modified. A blank page goes in as `insert_page(page_i)` puts it, an empty slot goes in each list as `list.insert(page_i)` does, and the index stays. For a valid index the lists stay in sync with one more page. On an empty document with `page_i == -1` the result is one blank page, in sync. That state is only reached inside the hanging `event_delete` of "## Findings". |
| PyPdfGui.App.InsertPageOf | pypdfgui.py:1333-1336 | The same, on the session itself, including `-1`. |
| PyPdfGui.App.EventDelete | pypdfgui.py:1358-1368 | The page and its slot go, and an index left at the end moves back by one. The lists stay in sync. With two or more pages, the page lookup of `update_page` then succeeds. Deleting the only page leaves an empty document with index -1, and that lookup never returns. |
| PyPdfGui.App.DeletePageOf | pypdfgui.py:1361-1367 | The part before `update_page`, on the session itself, for any int page_i. The document and lists lose the page, and the index stays valid. A failed `delete_page` changes nothing. |
| PyPdfGui.PageLookup | pypdfgui.py:1177-1180 | `doc[page_num]` in `update_page` succeeds iff the document has pages and the number is below the count. A negative number on an empty document never returns, and any other failure is IndexError. |
| PyPdfGui.DeleteOnlyPageHangs | pypdfgui.py:1362-1368 | Deleting the only page leaves an empty document, and the lookup `doc[-1]` that `update_page` then makes never returns. |
| PyPdfGui.IntendedDelete | pypdfgui.py:1204-1208 | Delete with the last page protected: a document of at most one page is kept as it is. `PyPdfGui.IntendedDeleteReturns` states it. |
| PyPdfGui.IntendedDeleteReturns | pypdfgui.py:1204-1208 | From every state with at least one page and a valid index, the protected delete returns. It keeps at least one page and a valid index, and the next page lookup succeeds. A one-page document is unchanged, and a longer one loses exactly the current page. |
| PyPdfGui.App.EventCompress | pypdfgui.py:1294-1302 | The session is marked modified and only `compress_basic` toggles. |
| PyPdfGui.App.EventCompressMax | pypdfgui.py:1303-1319 | `compress_max` toggles, and afterwards `compress_basic == compress_max`. |
| PyPdfGui.App.EventSetEncryption | pypdfgui.py:1268-1286 | The session is marked modified. The password is set only when both answers are given, equal and non-empty. |
| PyPdfGui.App.EventRemoveEncryption | pypdfgui.py:1287-1293 | The session is marked modified and the password becomes None. |
| PyPdfGui.App.FreehandMouseAddCoords | pypdfgui.py:1560-1573 | A point off the page is ignored. Any other point is appended to the active stroke. |
| PyPdfGui.App.FreehandMouseSetEnd | pypdfgui.py:1582-1596 | A stroke of more than one point joins the current page's strokes and marks the session modified. The active stroke is emptied either way. |
| PyPdfGui.App.HighlightMouseSetStart | pypdfgui.py:1613-1618 | The press point is remembered. |
| PyPdfGui.App.HighlightMouseSetEnd | pypdfgui.py:1619-1641 | A single-point rectangle is discarded. Any other rectangle joins the current page's highlights and marks the session modified. The press is consumed in both cases. |
| PyPdfGui.App.RedactMouseSetStart | pypdfgui.py:1598-1600 | The press point is remembered. |
| PyPdfGui.App.RedactMouseSetEnd | pypdfgui.py:1602-1611 | After a press, the rectangle joins the current page's redactions, even a single point, and the press is consumed. |
| PyPdfGui.App.OpenSession | pypdfgui.py:688-694 | A fresh session is appended under a fresh key, which becomes current and selected. |
| PyPdfGui.App.OpenBlankPdf | pypdfgui.py:712-722 | A one-page blank `New File` with password "" becomes current, with its lists in sync. |
| PyPdfGui.App.OpenNewPdf | pypdfgui.py:683-694 | A cancelled dialog changes nothing. Otherwise the opened document is appended and becomes current. |
| PyPdfGui.App.SelectNeighbour | pypdfgui.py:760-767 | The label at `index - 1` (at `index` when it is 0), with `*` removed, becomes `pdf_id`. IndexError if the label is not there. KeyError, with the selection unchanged, if no session has that key; otherwise the selection is refreshed. |
| PyPdfGui.App.CloseAt | pypdfgui.py:739-767 | The current session leaves the queue, with nothing changing on a removal error. With others open, the neighbour's label names the new `pdf_id`, with IndexError or KeyError as `SelectNeighbour` states. |
| PyPdfGui.App.CloseCurrentPdf | pypdfgui.py:732-768 | Nothing happens without a current document. ValueError when the selection is not a label. Otherwise the close is as `CloseAt` states. |
| Gui.NewGuiMenu | gui.py:11-19 | ValueError iff there are not as many handlers as labels. Otherwise the getters return what was passed in. |
| Gui.GuiMenu.GetButtonStates | gui.py:24-31 | Same length and order as the states: `normal` exactly where a state is True, `disabled` exactly where it is not. |
| Gui.StatesUnchecked | gui.py:12-19 | A states list of another length is still accepted. |

## Left out

- Widgets, canvas drawing, popups, key bindings, the thumbnail worker thread and zoom
  scaling in pypdfgui.py are UI and concurrency. Only the handlers' effect on the queue
  and the sessions is modelled.
- Handlers that pypdfgui.py has beyond navigation, insert, delete, the flags, the markup,
  opening and closing are not modelled. These include rotate, move, watermark, insert
  PDF, metadata, sign and verify. The operations they call are modelled in their modules.
- The menu-state assignments (`self.menus[...].states[i] = ...`) and button relabelling in
  the handlers only change widgets. The last-page guard of `update_page` is the exception:
  "## Findings" covers it.
- `PDFManipulator.save`, `PdfMerger.save` and the byte-level writes of `save_pdf` are file
  output. `save_pdf` is modelled as the trace of calls it makes.
- `gui_get_file` (manipulate.py and gui.py) and `open_pdf` (load.py) are dialogs.
  load.py is not part of this model, and the dialog's answer is a parameter.
- The `settings.json` read and the HTTP fetch in tamper_check.py's `main` are I/O. The
  local version and the fetched release data are parameters.
- `hash_md5` is a function parameter, and MD5 itself is not modelled.
- ECC key generation, ECDSA, SHA-256 and the PBKDF2/AES key wrapping are uninterpreted
  functions. The freshly generated key is a parameter.
- The network side of `load_resource` and `post_resource` is a map of resources and the
  server's answer to the POST. A fetch that fails for another reason than a missing
  resource is not distinguished from it.
- Sign.IsUrlIff: of the ValueErrors `urlparse` can raise, only the unmatched bracket is
  modelled. The check that a bracketed host is a valid IPv6 address and the NFKC check of
  the netloc are not.
- Sign.PostResource: writing a file never fails in the model. The same holds for
  Sign.StoreBins and the key file written by Sign.GenSignatureKeys.
- Utils.BaseName: POSIX paths only. Windows `os.path.split` also splits at `\` and after
  a drive colon.
- PyMuPDF's behaviour is modelled from the library's documented behaviour, not from its
  source. This covers the page-number clipping in `insert_pdf`, the `move_page` bounds,
  the `set_rotation` normalisation, and the loop in `delete_page` and `load_page` that
  adds the page count to a negative page number.
- Page content, geometry, `set_metadata`, and the annotation and redaction rendering are
  opaque.
- Python's `str.lower`, `str.title` and `int()` whitespace are modelled for ASCII only.
- Utils.PdfQueue.RemovePdf: `int()` on the key's number accepts ASCII digits with single
  underscores between them. Python also accepts non-ASCII decimal digits (Unicode
  category Nd), which the model refuses with ValueError.
- pypdfgui.py:27-42 imports names that its modules do not define: `GuiMenu` (gui.py
  defines `GUI_Menu`), `PdfDocInstance` and `PdfQueue` (utils.py defines
  `PDF_Doc_Instance` and `PDF_Queue`), and `PdfExtractor` and `PdfMerger` from
  manipulate.py (`PdfMerger` is in merge.py, and none of the modelled files defines `PdfExtractor`). As
  written, `import pypdfgui` raises ImportError. The model takes these names to mean
  `Gui.GuiMenu`, `Utils.PdfDocInstance`, `Utils.PdfQueue` and `Merge.PdfMerger`. The
  extract handlers that use `PdfExtractor` are not modelled.
- A `str` holding a lone surrogate is not distinguished from other characters.
- `GUI_Menu` stores its buttons list and compares `item == True`. Here the states are
  booleans, so only `True` counts as enabled.
- `insert_page(-1)` appending at the end is taken from PyMuPDF's documented behaviour.
- Save.SavePdf: the annotations and `apply_redactions` change the session's in-memory
  document as well as the saved file. The model records those calls in the trace and
  leaves the session's document unchanged.
- Save.AskFileName: a finite list of answers stands for the dialogs. A forced prompt whose
  answers run out is reported as still prompting, since the program would ask again.
- Utils.RemovePdfRenumbers: assumes names without '|' and keys of the form `add_pdf`
  builds. A name holding " | " can be read back with a different number.
- Utils.RemovePdfKeepsDense: the same assumption as `RemovePdfRenumbers`.
- The per-page markup lists hold `real` coordinates. Floating-point rounding is not
  modelled.

## Findings

| source | as written | input that shows it | evidently intended | confidence | as-written member | corrected member |
|---|---|---|---|---|---|---|
| merge.py:62-74 | `remove_page(len(doc) - 1)` copies pages 0..len-2 and then `insert_pdf(from_page=len)`. PyMuPDF clips that start back to the last page, so the last page is copied again. | a two-page document, `remove_page(1)` | the page at a valid index is removed, as the docstring says | not executed; depends on PyMuPDF clipping `from_page` | Merge.RemoveLastPageKept | Merge.SplicedOutRemovesPage |
| sign.py:60-64,78 | `gen_signature_keys` passes the passphrase as `str`, which PyCryptodome encodes as Latin-1. `sign_pdf` unlocks the key with `pwd.encode("utf-8")`. | passphrase `é` (U+00E9): 0xE9 at generation, 0xC3 0xA9 at signing | the same bytes protect and unlock the key | not executed; depends on PyCryptodome's str-to-bytes conversion | Sign.GenThenSignNonAscii | Sign.GenSignVerifyUtf8 |
| pypdfgui.py:1204-1208 | The guard headed "Prevent last page deletion" disables `menus["Pages"]` entry 2, which is "Rotate right" (lines 336-344). "Delete page" is `menus["Extract"]` entry 0 (lines 366-370) and stays enabled. `event_delete` on a one-page document deletes the page and sets `page_i` to -1, and `update_page(-1)` looks up `doc[-1]`. The library's `while pno < 0: pno += page_count` never ends on the empty document. | a one-page document, delete pressed once | the last page cannot be deleted: on a one-page document "Delete page" is disabled, and the document and index stay as they are | not executed; depends on PyMuPDF's page-number loop | PyPdfGui.DeleteOnlyPageHangs | PyPdfGui.IntendedDeleteReturns |
