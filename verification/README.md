# Minutiae reader and editor rules, in Dafny

py-minutiae-viewer lets an operator inspect and correct fingerprint minutiae
(ridge endings and bifurcations) and exchange them with fingerprint tools through
plain-text files. This project models two parts of it:

- the format-dispatched reader of `minutiae_reader.py`. A closed format enum
  (NBIST, MINDTCT, SIMPLE, XYT) picks a line grammar. `read` strips every line and
  hands the lines to that grammar. Each grammar turns the lines into an ordered
  list of minutiae or fails with a well-defined error.
- two pure rules inside the editor tab of `gui_editor.py`:
  - right-click deletion of the nearest minutia, using Manhattan distance, a
    strict threshold of 10 and a stable sort;
  - the choice of encoder from the suffix of the file name picked for saving.

Modules, one per file:

- `Wrappers` (`wrappers.dfy`): `Option` and `Result`.
- `Text` (`text.dfy`): Python's `str.strip()`, `str.split(' ')`, `re.split` on a
  character class, and `filter(None, ...)`.
- `Numerals` (`numerals.dfy`): the decimal subset of `int()` and `float()` that
  the file formats use.
- `Minutiae` (`minutia.dfy`): the minutia record and the reader's errors.
- `Reader` (`reader.dfy`): `minutiae_reader.py`, plus writers for the three line
  layouts that serve as the reader's round-trip partners.
- `Editor` (`editor.dfy`): the two `gui_editor.py` rules.

Python exceptions become `Result` failures:

| Python | Model |
|---|---|
| `AttributeError` from the constructor | `Unconfigured` |
| `CorruptFileError` | `CorruptFile(UnknownType(tag))` or `CorruptFile(CountMismatch(declared, read))` |
| `IndexError` on the list of lines | `MissingLine(i)` |
| `IndexError` on a line's tokens | `MissingToken(i)` |
| `ValueError` from `int()`/`float()` | `BadNumeral(token)` |

The order in which the code evaluates things is kept, and it decides which error a
bad line produces:

- the type tag is looked at before any numeral;
- the keyword arguments of `Minutia(...)` are evaluated left to right, so in a
  SIMPLE line `symbols[4]` is only indexed after x, y and the angle have been
  converted.

Further facts about the code that the model keeps:

- A malformed numeral raises `ValueError`, modelled as `BadNumeral`; it is not a
  corrupt-file error.
- A SIMPLE line with more than five fields is accepted, and so is an XYT line with
  more than four. The extra fields are ignored.
- The count line is split on single spaces (`split(' ')`), not on any white space.
- No error carries the number of the offending line.

## Model

| member | source | states |
|---|---|---|
| Reader.NewReader | pyminutiaeviewer/minutiae_reader.py:18-29 | The constructor succeeds exactly for the four enum members and keeps the format. The NBIST grammar is chosen exactly for NBIST and MINDTCT, SIMPLE's and XYT's own grammars exactly for them. Any other value fails with the unconfigured error naming it. |
| Reader.ReadFileDispatch | pyminutiaeviewer/minutiae_reader.py:18-41 | For every file, NBIST and MINDTCT read identically, SIMPLE and XYT read with their own grammars, and an unknown selector fails before the content matters. |
| Reader.Read | pyminutiaeviewer/minutiae_reader.py:31-41 | `read` parses the stripped lines: with SIMPLE or XYT a success has one minutia per raw line, read from that line after stripping. With NBIST a file of fewer than three lines fails on the missing count line, and a success has one minutia per line from index 4 on (none for a three-line file). |
| Reader.ReadFile | pyminutiaeviewer/minutiae_reader.py:18-41 | An unknown format fails as unconfigured whatever the file holds. A SIMPLE or XYT success has as many minutiae as the file has lines, an NBIST or MINDTCT success four fewer (none for a three-line file). |
| Reader.StripAll | pyminutiaeviewer/minutiae_reader.py:38-39 | `read` strips each line and neither adds nor drops a line. |
| Text.Strip | pyminutiaeviewer/minutiae_reader.py:39 | The stripped line is a contiguous part of the line. Only white space is cut off on either side, and neither end of the result is white space. |
| Text.StripIdempotent | pyminutiaeviewer/minutiae_reader.py:39 | Stripping twice is stripping once. |
| Text.StripTrimmed | pyminutiaeviewer/minutiae_reader.py:39 | Stripping leaves a line unchanged exactly when neither of its ends is white space. |
| Text.Split | pyminutiaeviewer/minutiae_reader.py:103 | `split` returns one more piece than the line has delimiters, so it always returns at least one piece. |
| Text.SplitRoundTrip | pyminutiaeviewer/minutiae_reader.py:103 | The pieces of a split, glued back with the separators found, rebuild the line, and every separator is a delimiter. |
| Text.SplitPiecesDelimiterFree | pyminutiaeviewer/minutiae_reader.py:67 | No piece of a split contains a delimiter. |
| Text.SplitAtDelimiter | pyminutiaeviewer/minutiae_reader.py:67 | A delimiter between two strings separates their pieces: the split of `a + d + b` is the split of `a` followed by the split of `b`. |
| Text.SplitJoin | pyminutiaeviewer/minutiae_reader.py:133 | Splitting a join of delimiter-free words at a delimiter gives back exactly those words. |
| Text.NonEmpty | pyminutiaeviewer/minutiae_reader.py:68 | `filter(None, ...)` keeps exactly the non-empty pieces: every kept piece is a non-empty piece of the input, and every non-empty piece is kept. |
| Text.Tokens | pyminutiaeviewer/minutiae_reader.py:67-68 | After empty pieces are filtered out, every token is non-empty and free of delimiters. |
| Text.TokensCharacterised | pyminutiaeviewer/minutiae_reader.py:67-68 | Tokens are the maximal delimiter-free runs: a delimiter separates the tokens on its two sides, a delimiter-free word is one token, and the empty line has none. |
| Text.TokensJoin | pyminutiaeviewer/minutiae_reader.py:67-68 | Tokenising a join of non-empty delimiter-free words, with any delimiter of the class, gives back the words. |
| Numerals.ParseInt | pyminutiaeviewer/minutiae_reader.py:79-80 | `int()` accepts a token exactly when it is digits, optionally after one sign. A minus sign gives a value at most 0; no sign or a plus sign gives a value at least 0. |
| Numerals.ParseReal | pyminutiaeviewer/minutiae_reader.py:81-83 | `float()` rejects the empty token, and the sign of the token decides the sign of the value. |
| Numerals.ParseRealAccepts | pyminutiaeviewer/minutiae_reader.py:81-83 | `float()` accepts a token exactly when it is an unsigned decimal (digits, or digits with one point, at least one digit in all), optionally after one sign. |
| Numerals.UnsignedAccepts | pyminutiaeviewer/minutiae_reader.py:81-83 | Without a sign, a token reads exactly when it is digits, or digits with one point and at least one digit. |
| Numerals.FractionValue | pyminutiaeviewer/minutiae_reader.py:81-83 | The digits after a point count tenths, hundredths and so on, and their value lies in [0, 1). |
| Numerals.UnsignedDecimalValue | pyminutiaeviewer/minutiae_reader.py:81-83 | The unsigned decimal `n.f` reads as the number the digits `n` spell plus the fraction the digits `f` spell. |
| Numerals.DecimalReads | pyminutiaeviewer/minutiae_reader.py:81-83 | For every whole number w and digit string f, `w.f` reads as w plus the fraction f spells, and `-w.f` as its negation. |
| Numerals.QualityExample | pyminutiaeviewer/minutiae_reader.py:83 | A quality written as "0.060" reads as 0.06. |
| Numerals.SignedExample | pyminutiaeviewer/minutiae_reader.py:81 | A negative fractional token such as "-12.5" reads as -12.5. |
| Numerals.IntRoundTrip | pyminutiaeviewer/minutiae_reader.py:79-80 | `int()` reads every integer's decimal numeral back as that integer. |
| Numerals.ParseRealOfInteger | pyminutiaeviewer/minutiae_reader.py:81-83 | `float()` reads an integer numeral as the same number `int()` reads. |
| Reader.Kind | pyminutiaeviewer/minutiae_reader.py:70-76 | "BIF" is a bifurcation and the grammar's ridge-ending tag ("RIG" in NBIST, "END" in SIMPLE) a ridge ending. Any other tag is a corrupt-file error naming the tag. |
| Reader.Tag | pyminutiaeviewer/minutiae_reader.py:105-111 | The tag written for a kind is read back as that kind. |
| Reader.ParseNbistRecord | pyminutiaeviewer/minutiae_reader.py:67-84 | A record with fewer than six tokens fails on the missing tag, and an unknown tag fails as corrupt. The record reads exactly when the tag is known and tokens 1-4 are numerals. The minutia then takes x and y from tokens 1-2, the angle from token 3 times 11.25, the quality from token 4 and the kind from the tag. |
| Reader.ParseSimpleRecord | pyminutiaeviewer/minutiae_reader.py:103-119 | A line with fewer than four fields fails on the missing tag, and an unknown tag fails as corrupt. The line reads exactly when it has at least five fields, a known tag and numerals in fields 0, 1, 2 and 4; extra fields are ignored. The minutia then holds those values, with the angle taken as degrees. |
| Reader.ParseXytRecord | pyminutiaeviewer/minutiae_reader.py:133-141 | A bad first field fails on that token. The line reads exactly when it has at least four fields and the first four are numerals; extra fields are ignored. The minutia is then a ridge ending with those values. |
| Reader.ParseRecords | pyminutiaeviewer/minutiae_reader.py:100-121 | The record loop succeeds exactly when every line parses. Then the i-th minutia is the one read from the i-th line, and there are as many minutiae as lines. |
| Reader.RecordsFirstFailure | pyminutiaeviewer/minutiae_reader.py:66-76 | The first line that fails decides the error of the whole file; later lines are never looked at. |
| Reader.RecordLines | pyminutiaeviewer/minutiae_reader.py:66 | `lines[4:]` holds the lines from index 4 on, in order, and is empty for a file of at most four lines. |
| Reader.DeclaredCount | pyminutiaeviewer/minutiae_reader.py:61 | A file of fewer than three lines fails on the missing line 2. Otherwise the count is read from the text of line 2 before its first space, and it succeeds exactly when that text is an integer numeral. |
| Reader.ParseNbist | pyminutiaeviewer/minutiae_reader.py:50-91 | If the count line is missing or not an integer, that error is the result. On success the declared count equals the number of minutiae, which equals the number of lines from index 4 on, and minutia i is read from line 4 + i. |
| Reader.NbistAcceptance | pyminutiaeviewer/minutiae_reader.py:56-91 | An NBIST file is accepted exactly when its count line holds an integer, every record line parses, and the declared count equals the number of record lines. |
| Reader.NbistCountMismatch | pyminutiaeviewer/minutiae_reader.py:86-89 | Any disagreement between the declared and the actual count, too few or too many, is a corrupt-file error carrying both numbers. |
| Reader.NbistUnknownTag | pyminutiaeviewer/minutiae_reader.py:70-76 | An unknown tag on the first bad record fails the whole file as corrupt and names the tag. |
| Reader.SimpleUnknownTag | pyminutiaeviewer/minutiae_reader.py:105-111 | An unknown tag on the first bad SIMPLE line fails the whole file as corrupt and names the tag. |
| Reader.NbistHeaderIgnored | pyminutiaeviewer/minutiae_reader.py:58-66 | Two files that agree on the count line and the record lines read the same; lines 0, 1 and 3 never matter. |
| Reader.NbistKindsFromTags | pyminutiaeviewer/minutiae_reader.py:70-74 | Every minutia read from an NBIST file has the kind its record's tag names. |
| Reader.ParseSimple | pyminutiaeviewer/minutiae_reader.py:94-121 | A SIMPLE file has no header and no count: minutia i is read from line i. |
| Reader.ParseXyt | pyminutiaeviewer/minutiae_reader.py:124-143 | An XYT file has no header and no count: minutia i is read from line i. |
| Reader.XytAllRidgeEndings | pyminutiaeviewer/minutiae_reader.py:139 | Every minutia read from an XYT file is a ridge ending. |
| Reader.NumeralIsWord | pyminutiaeviewer/minutiae_reader.py:67 | A written integer numeral is a non-empty, trimmed token of every grammar. |
| Reader.SimpleRecordRoundTrip | pyminutiaeviewer/minutiae_reader.py:102-119 | A SIMPLE line written for a minutia with whole angle and quality reads back as that minutia. |
| Reader.XytRecordRoundTrip | pyminutiaeviewer/minutiae_reader.py:132-141 | An XYT line written for a ridge ending with whole angle and quality reads back as that ridge ending. |
| Reader.NbistRecordRoundTrip | pyminutiaeviewer/minutiae_reader.py:66-84 | An NBIST record written for a minutia, with any of the delimiters `: ; ,` or space, reads back as that minutia: the angle is recovered from its units. |
| Reader.CountLineReads | pyminutiaeviewer/minutiae_reader.py:61 | A count line of the form `N note` declares N. |
| Reader.SimpleFileRoundTrip | pyminutiaeviewer/minutiae_reader.py:94-121 | A SIMPLE file written for a list of minutiae reads back as that list, in order. |
| Reader.XytFileRoundTrip | pyminutiaeviewer/minutiae_reader.py:124-143 | An XYT file written for a list of ridge endings reads back as that list, in order. |
| Reader.NbistFileRoundTrip | pyminutiaeviewer/minutiae_reader.py:50-91 | An NBIST file written for a list of minutiae reads back as that list, whatever its header lines and count note. |
| Reader.ReadSimpleRoundTrip | pyminutiaeviewer/minutiae_reader.py:31-41 | `read` with the SIMPLE reader, stripping included, returns the list a SIMPLE file was written for. |
| Reader.ReadXytRoundTrip | pyminutiaeviewer/minutiae_reader.py:31-41 | `read` with the XYT reader, stripping included, returns the list an XYT file was written for. |
| Editor.Distance | pyminutiaeviewer/gui_editor.py:106 | The Manhattan distance is never negative, is 0 exactly at the minutia's own position, and is at least the gap along each axis. |
| Editor.CandidatesFrom | pyminutiaeviewer/gui_editor.py:102-108 | The candidate list holds only indices whose distance is strictly below 10, each with that distance, in increasing index order. |
| Editor.CandidatesComplete | pyminutiaeviewer/gui_editor.py:104-108 | Every index whose distance is strictly below 10 is in the candidate list. |
| Editor.CandidatesExistIff | pyminutiaeviewer/gui_editor.py:104-114 | The candidate list is non-empty exactly when some minutia lies strictly within distance 10 of the query. |
| Editor.Insert | pyminutiaeviewer/gui_editor.py:111 | Insertion keeps the list sorted by distance and adds exactly the new element. It goes in front of an equally distant head. |
| Editor.SortByDist | pyminutiaeviewer/gui_editor.py:111 | Sorting yields a permutation of the candidates ordered by ascending distance. |
| Editor.SortHeadIsFirstClosest | pyminutiaeviewer/gui_editor.py:111 | The sort is stable: its head is the earliest of the candidates at the smallest distance. |
| Editor.FirstClosestIsNearest | pyminutiaeviewer/gui_editor.py:102-111 | The earliest closest candidate is within the threshold, no farther than any minutia, and strictly closer than every earlier one. |
| Editor.RankedFirstIsNearest | pyminutiaeviewer/gui_editor.py:102-116 | The candidate the sort ranks first is the nearest minutia in that sense. |
| Editor.NearestUnique | pyminutiaeviewer/gui_editor.py:111-116 | At most one minutia is the nearest, so ties are resolved by list order. |
| Editor.RemoveNearest | pyminutiaeviewer/gui_editor.py:113-116 | A click with a candidate removes exactly one minutia; a click without one leaves the list unchanged. |
| Editor.RemoveNearestSpec | pyminutiaeviewer/gui_editor.py:102-116 | The list is unchanged exactly when no minutia is strictly within 10 of the query. Otherwise a nearest minutia exists, and it alone is removed, the rest keeping their order. |
| Editor.DeletionExamples | pyminutiaeviewer/gui_editor.py:102-116 | With minutiae at (0,0) and (5,5): a click at (1,1) removes the first, and a click at (100,100) removes nothing. A click at (10,0), where both lie at exactly 10, removes nothing. A click at (2.5,2.5), where both lie at 5, removes whichever comes first in the list. |
| Editor.TieExample | pyminutiaeviewer/gui_editor.py:104-116 | For any query point, of two minutiae equally close to it and within the threshold, the earlier one is removed. |
| Editor.Components | pyminutiaeviewer/gui_editor.py:49 | The path components kept are never empty and never ".". |
| Editor.ComponentsArePieces | pyminutiaeviewer/gui_editor.py:49 | Every kept path component is one of the pieces of the path. |
| Editor.ComponentsAppend | pyminutiaeviewer/gui_editor.py:49 | Components of concatenated piece lists are the concatenated components. |
| Editor.Name | pyminutiaeviewer/gui_editor.py:49 | The name of a path is never "." and never contains a "/". |
| Editor.NameOfJoin | pyminutiaeviewer/gui_editor.py:49 | The name of `dir/base` is `base` for any directory. |
| Editor.LastPoint | pyminutiaeviewer/gui_editor.py:49 | The position found holds a point and no later position does; -1 means there is no point. |
| Editor.Suffix | pyminutiaeviewer/gui_editor.py:49-51 | A non-empty suffix is the tail of the name. It starts with its only point, has at least one further character and is shorter than the name. |
| Editor.SuffixEmptyIff | pyminutiaeviewer/gui_editor.py:49-51 | A name has no suffix exactly when every point strictly inside it is followed by a later point. |
| Editor.SuffixOfStem | pyminutiaeviewer/gui_editor.py:49-51 | The suffix of `stem.ext`, with a non-empty stem and a point-free extension, is `.ext`. |
| Editor.SavedSuffix | pyminutiaeviewer/gui_editor.py:49-51 | The suffix of the name of `dir/stem.ext` is `.ext`. |
| Editor.EncoderFor | pyminutiaeviewer/gui_editor.py:49-56 | The suffix ".sim" selects the SIMPLE encoder and ".min" the NBIST encoder. Every other suffix is rejected, and the rejection names it. |
| Editor.ChooseEncoder | pyminutiaeviewer/gui_editor.py:47-56 | Nothing happens exactly when the dialog returns no path. Otherwise SIMPLE is chosen exactly for the suffix ".sim" and NBIST exactly for ".min". Any other suffix is rejected and nothing is written. |
| Editor.ChooseEncoderByExtension | pyminutiaeviewer/gui_editor.py:47-56 | Saving to `dir/stem.ext` encodes SIMPLE for `sim` and NBIST for `min`, and is refused with suffix `.ext` for any other extension. |
| Editor.EncoderForExtension | pyminutiaeviewer/gui_editor.py:49-53 | `"." + ext` selects SIMPLE exactly for `sim` and NBIST exactly for `min`. |

## Left out

- Opening and reading the file in `read`: the model takes the file's raw lines as input.
- The repository's `minutiae_encoder.py`, `minutia.py` and `errors.py` are not part of this model.
  - The minutia record keeps the fields the reader passes.
  - The errors are named after the exceptions the reader raises.
  - The round-trip lemmas use writers of their own that follow the line layouts the reader parses.
- The Tk user interface:
  - the file dialogs, drawing, and the minutia count label;
  - the bounds check on the click position;
  - the scaling of the click by the image's display factor. The deletion rule takes the already scaled query point as two reals.
- Editor.ChooseEncoder: the error dialog's text and the write call itself (with its exception handler) are not modelled, because both are I/O.
- Floating point: angles, qualities and distances are exact reals. The rounding of `float(...) * 11.25` and of the scaled click position is not modelled.
- Numerals.ParseInt: covers the decimal forms the file formats use. Not modelled:
  - the surrounding white space, underscores and non-ASCII digits that `int()` also accepts.
- Numerals.ParseReal: covers digits with an optional point and fraction, after an optional sign, read as exact reals. Not modelled:
  - the exponents, `inf`/`nan`, underscores and surrounding white space that `float()` also accepts;
  - the sign of negative zero.
- Reader.SimpleRecordRoundTrip: stated for minutiae whose angle and quality are whole numbers, because only those have an integer numeral. The same restriction holds for the XYT round trips.
- Reader.NbistRecordRoundTrip: stated for angles that are whole multiples of 11.25° and whole qualities. The NBIST file round trip is stated for the grammar after stripping, not through `read`.
- Editor.Name: models POSIX `pathlib` only. It splits on "/" and drops empty and "." components. Windows paths, drive letters and the suffix rules of later Python versions are not modelled.
