# littlesmith, modelled in Dafny

This project models the header-only C++ library `littlesmith` that sits under a
bulk file-rename tool, and proves properties of that model. It covers these parts:

- **Text helpers** (`text.dfy`, module `Text`). These model `littlesmith/text/String.h`:
  - `split` on one delimiter, and on the earliest of several (with `findFirstOf`);
  - `join`;
  - ASCII `to_lower` and `to_upper`;
  - `align_text`;
  - the greedy word wrapper `to_block`.
- **Value coercions** (`format.dfy`, module `Format`). These model `littlesmith/text/Format.h`:
  - the `strto<T>` specialisations for every integral type and for `bool`, on top of a model of
    `std::stoi`/`stol`/`stoll`/`stoul`/`stoull`;
  - `parsePair` and `formatPair`, which read and write `<open><int><sep><int><close>`.
- **Versions** (`version.dfy`, module `Versions`). This models `littlesmith/util/Version.h`: a 16-bit
  major, a 16-bit minor and a 32-bit revision, with the conversions to and from a 64-bit integer and to
  and from the text `major.minor.revision`.
- **Bit operations** (`bitwise.dfy`, module `Bitwise`, over the 32-bit words of `words.dfy`). These
  model `littlesmith/util/Bitwise.h`: the shifts, the rotations, `choose` and `majority`.
- **SHA-256** (`sha256.dfy`, module `Sha256`). This models `littlesmith/crypto/SHA256.h`. The context
  is a class whose fields are the running hash value `m_h` (an array), the partial block `m_block`
  (an array) and the byte counts `m_len` and `m_tot_len`. `init`, `update`, `final` and the
  compression loops of `transform` are methods. Each is proved against the FIPS 180-4 definitions
  written out in `fips180.dfy` (module `Fips180`).
- **Command-line framework** (`arguments.dfy`, module `CommandLine`). This models
  `littlesmith/util/Arguments.h`:
  - the per-option record `argument`, with its typed getters, its check and its usage token;
  - the `arguments` class, which holds:
    - the registry of options;
    - the token scanner of `parse`;
    - the check loop;
    - `printHeader` and `printUsage`.

  The class keeps the `std::map` of options, the long-to-short index and the key list as fields
  that its methods reassign. Standard output is the field `out`, holding the lines written so far.
- **Exceptions** (`outcomes.dfy`, module `Outcomes`). The exceptions the library throws become the
  values `InvalidArgument(what)` and `OutOfRange(what)`, carried in `Result<T>` and `Outcome`.

Where the code and its design description disagree, the model follows the code:

- **Quoted values.** While a quoted value is being collected, `parse` replaces the value with `" "` plus
  the token; it does not append to it.
- **Closing quote.** The "not preceded by a backslash" test compares a two-character string with a
  one-character one, so it never fails. Any token ending with `"` closes the value.
- **Inline values.** A `key=value` token is split on every `=`, and the value is the second piece
  only.
- **`strto<unsigned int>`.** It keeps the `stoul` result modulo 2^32, so its `UINT32_MAX` test can
  never fire. Every failure carries the message `strto<unsigned ini>`, as the source spells it.
- **Line breaks in `to_block`.** The split keeps an empty piece between two delimiters in a row, such as
  a blank before a line break. The first loop drops that empty piece but still records its delimiter
  (String.h:137-142). From then on the delimiter list runs ahead of the part list, so a part is read
  with the delimiter of an earlier piece, and a line break can be lost. `to_block("a \nb")` is the
  one line `"a b"`, and `to_block("a\nb")` is the two lines `"a"` and `"b"`. With no empty piece the
  two lists stay in step, and every line break ends a line.

## Model

| member | source | states |
|---|---|---|
| Bitwise.ShiftRight | include/littlesmith/util/Bitwise.h:8 | no contract of its own: `shift_right` on a 32-bit word by less than 32; `ShiftRightBit` states it bit by bit |
| Bitwise.ShiftLeft | include/littlesmith/util/Bitwise.h:10 | no contract of its own: `shift_left` on a 32-bit word by less than 32, keeping the low 32 bits; `ShiftLeftBit` states it bit by bit |
| Bitwise.RotateRight | include/littlesmith/util/Bitwise.h:12 | no contract of its own: `shift_right(x, n)` or-ed with `x << (32 - n)`; `RotateRightBit` and `RotateLeftRight` state it |
| Bitwise.RotateLeft | include/littlesmith/util/Bitwise.h:14 | no contract of its own: `shift_left(x, n)` or-ed with `x >> (32 - n)`; `RotateLeftBit` and `RotateRightLeft` state it |
| Bitwise.Choose | include/littlesmith/util/Bitwise.h:16 | no contract of its own: `(x & y) ^ (~x & z)`; `ChooseSelects` states it bit by bit |
| Bitwise.Majority | include/littlesmith/util/Bitwise.h:18 | no contract of its own: `(x & y) ^ (x & z) ^ (y & z)`; `MajorityVotes` states it bit by bit |
| Bitwise.ShiftRightBit | include/littlesmith/util/Bitwise.h:8 | bit i of `shift_right(x, n)` is bit i + n of x, and 0 once i + n passes 31 (a logical shift) |
| Bitwise.ShiftLeftBit | include/littlesmith/util/Bitwise.h:10 | bit i of `shift_left(x, n)` is bit i - n of x, and 0 below n |
| Bitwise.RotateRightBit | include/littlesmith/util/Bitwise.h:12 | bit i of `rotate_right(x, n)` is bit (i + n) mod 32 of x |
| Bitwise.RotateLeftBit | include/littlesmith/util/Bitwise.h:14 | bit i of `rotate_left(x, n)` is bit (i - n) mod 32 of x |
| Bitwise.RotateLeftRight | include/littlesmith/util/Bitwise.h:12-14 | rotating left by n undoes rotating right by n |
| Bitwise.RotateRightLeft | include/littlesmith/util/Bitwise.h:12-14 | rotating right by n undoes rotating left by n |
| Bitwise.ChooseSelects | include/littlesmith/util/Bitwise.h:16 | each bit of `choose(x, y, z)` is y's bit where x has a 1, and z's bit where x has a 0 |
| Bitwise.MajorityVotes | include/littlesmith/util/Bitwise.h:18 | a bit of `majority(x, y, z)` is set iff it is set in at least two of x, y and z |
| Versions.DefaultVersion | include/littlesmith/util/Version.h:17-21 | no contract of its own: the version 0.0.0; `DefaultVersionBytes` states how it packs |
| Versions.FromBytes | include/littlesmith/util/Version.h:29-35 | the 64-bit value is major times 2^48 plus minor times 2^32 plus revision of the version read from it |
| Versions.ToBytes | include/littlesmith/util/Version.h:56-63 | the revision is the low 32 bits of the packed value, the minor the next 16 bits and the major the top 16 bits |
| Versions.ToString | include/littlesmith/util/Version.h:50-54 | no contract of its own: the three components in decimal, joined by dots; `FromToString` states that the string constructor reads it back |
| Versions.FromString | include/littlesmith/util/Version.h:37-44 | on success the major component is what strto<unsigned short> reads at the start; when that read fails, its error is the result; every failure is the error of strto<unsigned short>, of `substr` or of strto<unsigned int> (whose message the source spells "strto<unsigned ini>") |
| Versions.FromToBytes | include/littlesmith/util/Version.h:29-35 | unpacking the 64-bit value that `toBytes` (lines 56-63) packs gives the version back |
| Versions.ToFromBytes | include/littlesmith/util/Version.h:56-63 | packing the version unpacked from any 64-bit value gives that value back |
| Versions.DefaultVersionBytes | include/littlesmith/util/Version.h:17-21 | the default version is 0.0.0, packs into 0, and unpacks from 0 |
| Versions.FromToString | include/littlesmith/util/Version.h:37-54 | the string constructor reads back what `toString` writes |
| Versions.FromStringWritten | include/littlesmith/util/Version.h:37-44 | three components are read back whatever single non-digit characters separate them and whatever non-numeric text follows |
| Versions.FromStringMajorTooLarge | include/littlesmith/util/Version.h:39 | a major component between 2^16 and 2^32 - 1 raises out_of_range "strto<unsigned short>" |
| Versions.FromStringMinorTooLarge | include/littlesmith/util/Version.h:41 | after a valid major component and one separator, a minor component between 2^16 and 2^32 - 1 raises out_of_range "strto<unsigned short>" |
| Versions.FromStringMajorOnly | include/littlesmith/util/Version.h:40 | a lone number has no separator to skip, so `substr` raises out_of_range |
| Versions.MinorFrom | include/littlesmith/util/Version.h:41-43 | a version read after the major component keeps that major component, and its minor component is what strto<unsigned short> reads from the rest; when that read fails, its error is the result; any other failure is the error of `substr` or of strto<unsigned int> |
| Versions.RevisionFrom | include/littlesmith/util/Version.h:43 | the revision is read exactly when strto<unsigned int> succeeds on the rest; the version is then the major and minor components with the value strto<unsigned int> reads; a failure is its error, with the message "strto<unsigned ini>" |
| Format.SpaceEnd | include/littlesmith/text/Format.h:36 | the end of the maximal run of white space that `stoi` and its siblings skip |
| Format.DigitEnd | include/littlesmith/text/Format.h:36 | the end of the maximal run of decimal digits a conversion consumes |
| Format.ScanDecimalAt | include/littlesmith/text/Format.h:36 | the scan of white space, optional sign and digits has the sign, value and end of exactly that layout, and is no conversion without digits |
| Format.NoDigitsNoScan | include/littlesmith/text/Format.h:36 | a text without any digit has no conversion |
| Format.ScanDecimalExtend | include/littlesmith/text/Format.h:36 | text after the point where a scan stopped does not change the scan |
| Format.SignedConversion | include/littlesmith/text/Format.h:22 | a `stoi`/`stol`/`stoll` result lies in the type's range, and its `idx` is within the text |
| Format.UnsignedConversion | include/littlesmith/text/Format.h:67 | a `stoul`/`stoull` result lies in [0, 2^64 - 1], and its `idx` is within the text |
| Format.Rethrow | include/littlesmith/text/Format.h:23-26 | a caught exception is rethrown with the same class and the new message |
| Format.StrToShort | include/littlesmith/text/Format.h:19-32 | succeeds iff the scan's value fits 16 bits, and then returns it with the end of the scan; each failure is "strto<short>", invalid_argument exactly when there is no conversion |
| Format.StrToInt | include/littlesmith/text/Format.h:34-42 | the same for 32 bits, with message "strto<int>" |
| Format.StrToLong | include/littlesmith/text/Format.h:44-52 | the same for 64 bits, with message "strto<long>" |
| Format.StrToLongLong | include/littlesmith/text/Format.h:54-62 | the same for 64 bits, with message "strto<long long>" |
| Format.StrToUInt | include/littlesmith/text/Format.h:64-77 | succeeds iff `stoul` does, returns its value modulo 2^32, and every failure carries "strto<unsigned ini>" |
| Format.StrToUShort | include/littlesmith/text/Format.h:79-92 | succeeds iff `strto<unsigned int>` does and its (already reduced) value fits 16 bits; failures carry "strto<unsigned short>" |
| Format.StrToULong | include/littlesmith/text/Format.h:94-102 | succeeds iff the magnitude fits 64 bits, and then returns the value, a minus sign negating it modulo 2^64 |
| Format.StrToULongLong | include/littlesmith/text/Format.h:104-112 | as `strto<unsigned long>`, with message "strto<unsigned long long>" |
| Format.StrToBool | include/littlesmith/text/Format.h:144-155 | succeeds exactly when the lower-cased text is one of yes, on, true, no, off, false; the result is true exactly for yes, on, true; on success `idx` is the length of the text; every failure is invalid_argument "strto<bool>" |
| Format.StrToBoolCaseInsensitive | include/littlesmith/text/Format.h:145 | `strto<bool>` depends only on the lower-cased text |
| Format.StrToBoolUpper | include/littlesmith/text/Format.h:145-153 | capitals may be used anywhere in the yes/no words |
| Format.ScanDecimalOf | include/littlesmith/text/Format.h:36 | scanning an integer written in decimal gives its sign, magnitude and length back |
| Format.StrToIntDecimal | include/littlesmith/text/Format.h:34-42 | `strto<int>` reads back every written 32-bit value and stops where its digits end; a written value outside 32 bits is out_of_range |
| Format.StrToShortDecimal | include/littlesmith/text/Format.h:19-32 | `strto<short>` reads back exactly the written values that fit 16 bits; the others are out_of_range |
| Format.StrToLongDecimal | include/littlesmith/text/Format.h:44-62 | `strto<long>` and `strto<long long>` read back every written 64-bit value; others are out_of_range |
| Format.StrToUnsignedDecimal | include/littlesmith/text/Format.h:64-102 | written unsigned values up to 2^64 - 1 are read back by `strto<unsigned long>`; `strto<unsigned int>` keeps them modulo 2^32, and `strto<unsigned short>` accepts those whose remainder fits 16 bits |
| Format.StrToUShortDecimal | include/littlesmith/text/Format.h:79-92 | every written 16-bit number is read back by `strto<unsigned short>` |
| Format.StrToUIntDecimal | include/littlesmith/text/Format.h:64-77 | every written 32-bit number is read back by `strto<unsigned int>` |
| Format.StrToUShortTooLarge | include/littlesmith/text/Format.h:88-90 | a written number between 2^16 and 2^32 - 1 is out_of_range for `strto<unsigned short>` |
| Format.StrToULongNegative | include/littlesmith/text/Format.h:94-102 | a minus sign in front of m gives 2^64 - m |
| Format.Substr | include/littlesmith/text/Format.h:166 | `substr(pos)` succeeds iff pos is at most the length, and then returns the characters from pos on |
| Format.ParsePair | include/littlesmith/text/Format.h:158-179 | a format that is not 3 characters long is invalid_argument "invalid pair format"; a first character other than the opening one is "wrong or missing opening bracket"; an empty text against a '\0' opening character is the out_of_range of `substr(1)`; otherwise the rest is read after the opening character; both numbers are 32-bit |
| Format.ParseNumbers | include/littlesmith/text/Format.h:166-172 | after the opening character: a strto<int> failure of the first number is passed on unchanged; a character other than the separator after it is "wrong or missing separator"; on success the separator is there and the first number is strto<int>'s; both numbers are 32-bit |
| Format.ParseSecond | include/littlesmith/text/Format.h:173-178 | after the separator: a strto<int> failure of the second number is passed on unchanged; a character other than the closing one after it (the terminating '\0' at the end) is "wrong or missing closing bracket"; on success the pair is the first number and strto<int>'s second, 32-bit |
| Format.ParsePairLayout | include/littlesmith/text/Format.h:158-179 | parsePair succeeds exactly on an opening character, a strto<int> number, the separator, a second strto<int> number and the closing character, and returns those two numbers |
| Format.FormatPair | include/littlesmith/text/Format.h:182-194 | succeeds iff the format is 3 characters long, and otherwise raises "invalid pair format" |
| Format.PairRoundTrip | include/littlesmith/text/Format.h:158-194 | `parsePair` reads back what `formatPair` writes, for 32-bit numbers and a format whose separator and closing character are not digits |
| Format.ParsePairIgnoresTail | include/littlesmith/text/Format.h:175 | nothing after the closing character is examined |
| Format.StrToIntExtend | include/littlesmith/text/Format.h:34-42 | `strto<int>` does not look past the first non-digit after the number |
| Text.Find | include/littlesmith/text/String.h:17 | `find` gives an occurrence of the needle with no earlier one, or npos when there is none at all |
| Text.FindFrom | include/littlesmith/text/String.h:17 | the same, searching from a given position |
| Text.Pieces | include/littlesmith/text/String.h:13-27 | the pieces are empty iff the text is |
| Text.Split | include/littlesmith/text/String.h:13-27 | the loop of `split` produces the pieces, cut at each occurrence from left to right, with a non-empty remainder last |
| Text.PiecesAvoidDelimiter | include/littlesmith/text/String.h:13-27 | no piece contains the delimiter |
| Text.Join | include/littlesmith/text/String.h:61-71 | the loop of `join` produces the parts with the delimiter between neighbours |
| Text.JoinSplit | include/littlesmith/text/String.h:13-27 | `join` undoes `split` for a non-empty text that does not end with the delimiter |
| Text.SplitJoin | include/littlesmith/text/String.h:61-71 | `split` undoes `join` for a one-character delimiter that no part contains, when the last part is not empty |
| Text.BetterBest | include/littlesmith/text/String.h:34-39 | one turn of the `findFirstOf` loop keeps the earliest hit so far, the earlier needle winning a tie |
| Text.FirstOfFromBest | include/littlesmith/text/String.h:32-41 | the whole loop ends with the earliest hit over all needles |
| Text.FirstOfBest | include/littlesmith/text/String.h:29-42 | `findFirstOf` finds the earliest hit of all the needles |
| Text.FirstOfHit | include/littlesmith/text/String.h:29-42 | the hit it reports is an occurrence of the needle it names |
| Text.FirstOfEarliest | include/littlesmith/text/String.h:29-42 | no needle occurs before the hit, and none at all when there is none |
| Text.NextCut | include/littlesmith/text/String.h:29-42 | the cut reported is one of the delimiters, occurring at the reported position |
| Text.NextCutEarliest | include/littlesmith/text/String.h:29-42 | no delimiter occurs before the cut |
| Text.FindFirstOf | include/littlesmith/text/String.h:29-42 | the loop's position and found delimiter are the first cut; the out-parameter keeps its old value when nothing is found |
| Text.SplitMulti | include/littlesmith/text/String.h:44-59 | the loop produces the pieces cut at each first hit, and appends the cut delimiters to the in/out list |
| Text.SplitMultiStep | include/littlesmith/text/String.h:49-55 | one turn of the loop keeps the pieces and delimiters seen so far a prefix of the final ones |
| Text.MultiPiecesShape | include/littlesmith/text/String.h:44-59 | one recorded delimiter per piece, except a non-empty last piece; every recorded delimiter is one of the delimiters |
| Text.MultiPiecesRebuild | include/littlesmith/text/String.h:44-59 | putting the recorded delimiters back between the pieces rebuilds the text exactly |
| Text.MultiPiecesAvoid | include/littlesmith/text/String.h:44-59 | no piece contains any of the delimiters |
| Text.ToLower | include/littlesmith/text/String.h:73-78 | same length; only ASCII capitals change, each to its small letter; no capital is left |
| Text.ToUpper | include/littlesmith/text/String.h:80-85 | same length; only ASCII small letters change, each to its capital; no small letter is left |
| Text.CaseFolding | include/littlesmith/text/String.h:73-85 | lower-casing is idempotent and forgets an earlier upper-casing |
| Text.AlignText | include/littlesmith/text/String.h:93-117 | a line at least `width` long is returned unchanged; otherwise the line sits after the padding of its alignment, with only spaces around it, and is padded up to `width` exactly when `padRight` is set |
| Text.CenterSplitsSlack | include/littlesmith/text/String.h:104-107 | centring with right padding puts the larger half of the slack after the line |
| Text.ChunksSpell | include/littlesmith/text/String.h:130-136 | the chunks of a long word spell the word, fit the width, and all but the last are exactly `width` long |
| Text.LayoutFits | include/littlesmith/text/String.h:128-143 | the parts the first loop of `to_block` builds are non-empty and fit the width |
| Text.LayoutParts | include/littlesmith/text/String.h:128-143 | those parts spell the words they were cut from |
| Text.LayoutOutOfStep | include/littlesmith/text/String.h:128-143 | the delimiter list of the first loop is longer than the part list by the number of empty raw parts; the delimiter of a non-empty raw part sits that many places after its last chunk |
| Text.LayoutInStep | include/littlesmith/text/String.h:128-143 | with no empty raw part the two lists have the same length and each raw part's last chunk is followed by its own delimiter |
| Text.BlockLinefeedLost | include/littlesmith/text/String.h:137-142 | `to_block("a \nb")` is the single line "a b": the line break after the empty piece is lost |
| Text.BlockLinefeedKept | include/littlesmith/text/String.h:119-174 | `to_block("a\nb")` is the two lines "a" and "b" |
| Text.PiecesLost | include/littlesmith/text/String.h:124 | the split of "a \nb" is "a", "" and "b", cut by a blank and a line break |
| Text.LayoutLost | include/littlesmith/text/String.h:128-143 | the first loop turns those pieces into the parts "a" and "b" with the delimiters blank and line break |
| Text.PackLost | include/littlesmith/text/String.h:145-172 | the second loop joins "a" and "b" with the blank into one line |
| Text.LayoutDelims | include/littlesmith/text/String.h:128-143 | the delimiters the first loop records are blank |
| Text.PackFits | include/littlesmith/text/String.h:145-172 | every line the second loop emits is non-empty and fits the width |
| Text.PackEmpty | include/littlesmith/text/String.h:145-172 | the second loop emits a line exactly when something is left to pack |
| Text.PackStrip | include/littlesmith/text/String.h:145-172 | deleting blanks from the emitted lines leaves the current line and the remaining parts with blanks deleted |
| Text.BlockLines | include/littlesmith/text/String.h:119-174 | every line of `to_block` is non-empty and at most `width` long; the lines hold the input's characters apart from blanks, in order; there are no lines iff the input is blank |
| Text.BlockNotEmpty | include/littlesmith/text/String.h:119-174 | the block of a text that is not blank has a first line |
| Text.ToBlock | include/littlesmith/text/String.h:119-174 | the method returns the block specified by the two loops |
| Text.CutParts | include/littlesmith/text/String.h:128-143 | the first loop cuts each word into chunks, recording LINEFEED between chunks and the word's own delimiter after it |
| Text.CutWord | include/littlesmith/text/String.h:130-136 | the inner loop appends the chunks of one word and one LINEFEED per extra chunk |
| Text.PackParts | include/littlesmith/text/String.h:145-172 | the second loop packs the parts greedily into aligned lines |
| Sha256.RoundConstants | include/littlesmith/crypto/SHA256.h:66-82 | the table `sha256_k` is the constants of section 4.2.2 of FIPS 180-4 |
| Sha256.F1 | include/littlesmith/crypto/SHA256.h:46 | no contract of its own: `f1`, three right rotations xor-ed; `F1IsBigSigma0` states what it is |
| Sha256.F2 | include/littlesmith/crypto/SHA256.h:47 | no contract of its own: `f2`; `F2IsBigSigma1` states what it is |
| Sha256.F3 | include/littlesmith/crypto/SHA256.h:48 | no contract of its own: `f3`, two rotations and a shift xor-ed; `F3IsSmallSigma0` states what it is |
| Sha256.F4 | include/littlesmith/crypto/SHA256.h:49 | no contract of its own: `f4`; `F4IsSmallSigma1` states what it is |
| Sha256.F1IsBigSigma0 | include/littlesmith/crypto/SHA256.h:46 | `f1` is capital sigma 0 of section 4.1.2 of FIPS 180-4 |
| Sha256.F2IsBigSigma1 | include/littlesmith/crypto/SHA256.h:47 | `f2` is capital sigma 1 |
| Sha256.F3IsSmallSigma0 | include/littlesmith/crypto/SHA256.h:48 | `f3` is small sigma 0 |
| Sha256.F4IsSmallSigma1 | include/littlesmith/crypto/SHA256.h:49 | `f4` is small sigma 1 |
| Sha256.ChooseMajority | include/littlesmith/crypto/SHA256.h:103-105 | `choose` and `majority` are Ch and Maj |
| Sha256.Unpack | include/littlesmith/crypto/SHA256.h:52-57 | `unpack` writes four bytes |
| Sha256.Pack | include/littlesmith/crypto/SHA256.h:59-64 | no contract of its own: the four bytes or-ed into a word, the first shifted furthest; `PackBigEndian`, `PackUnpack` and `UnpackPack` state it |
| Sha256.UnpackBigEndian | include/littlesmith/crypto/SHA256.h:52-57 | `unpack` writes a word big-endian, as section 3.1 of FIPS 180-4 orders bytes |
| Sha256.PackBigEndian | include/littlesmith/crypto/SHA256.h:59-64 | `pack` reads a word big-endian |
| Sha256.PackUnpack | include/littlesmith/crypto/SHA256.h:52-64 | packing the bytes `unpack` writes gives the word back |
| Sha256.UnpackPack | include/littlesmith/crypto/SHA256.h:52-64 | unpacking the word `pack` reads gives the bytes back |
| Sha256.ShiftedByte | include/littlesmith/crypto/SHA256.h:53-55 | `(uint8_t)(x >> n)` is byte n / 8 of x |
| Sha256.RoundStep | include/littlesmith/crypto/SHA256.h:103-113 | the round body moves the working variables as step 3 of section 6.2.2 of FIPS 180-4 does |
| Sha256.ScheduleStep | include/littlesmith/crypto/SHA256.h:96-98 | a schedule word from index 16 on is W_j of step 1 of section 6.2.2 of FIPS 180-4 |
| Sha256.NextBlock | include/littlesmith/crypto/SHA256.h:91-118 | hashing one more block is compressing it into the hash of the blocks before |
| Sha256.SHA256.constructor | include/littlesmith/crypto/SHA256.h:41-44 | a value-initialised context: nothing absorbed, both counts 0, every byte of the block and every hash word 0 |
| Sha256.SHA256.Init | include/littlesmith/crypto/SHA256.h:121-132 | the hash value is H(0) of section 5.3.3 of FIPS 180-4, both counts are 0, nothing is absorbed |
| Sha256.SHA256.Transform | include/littlesmith/crypto/SHA256.h:84-119 | the hash value becomes the old one with the first `block_nb` 64-byte blocks compressed into it, in order |
| Sha256.SHA256.CompressBlock | include/littlesmith/crypto/SHA256.h:92-117 | one turn of the block loop compresses one block exactly as section 6.2.2 of FIPS 180-4 does |
| Sha256.Schedule | include/littlesmith/crypto/SHA256.h:93-98 | the first two loops leave the message schedule of the block in `w` |
| Sha256.ScheduleHead | include/littlesmith/crypto/SHA256.h:93-95 | the first loop loads the 16 words of the block, big-endian |
| Sha256.ScheduleTail | include/littlesmith/crypto/SHA256.h:96-98 | the second loop computes the other 48 words |
| Sha256.LoadWorking | include/littlesmith/crypto/SHA256.h:99-101 | the working variables start as the hash value |
| Sha256.Rounds64 | include/littlesmith/crypto/SHA256.h:102-114 | the 64 rounds leave the working variables of step 3 of section 6.2.2 of FIPS 180-4 |
| Sha256.RoundUpdate | include/littlesmith/crypto/SHA256.h:103-113 | one round on the working variables |
| Sha256.AddWorking | include/littlesmith/crypto/SHA256.h:115-117 | the working variables are added into the hash value word by word, modulo 2^32 |
| Sha256.SHA256.AbsorbedCounts | include/littlesmith/crypto/SHA256.h:41-42 | `m_tot_len` is a multiple of 64, and `m_tot_len + m_len` is the input length modulo 2^32 |
| Sha256.SHA256.Update | include/littlesmith/crypto/SHA256.h:134-154 | the message is appended to the input, and the absorbed invariant is kept: every whole 64-byte block of the input has gone through the compression function, in order; the fewer than 64 bytes left wait at the start of the block; and the counts agree |
| Sha256.SHA256.UpdateBlocks | include/littlesmith/crypto/SHA256.h:145-153 | the filled block and the whole blocks of the rest of the message are compressed, and what is left over is returned |
| Sha256.SHA256.TransformBoth | include/littlesmith/crypto/SHA256.h:148-149 | the two `transform` calls of `update` extend the hash by the filled block and then the whole blocks |
| Sha256.CopyInto | include/littlesmith/crypto/SHA256.h:140 | `memcpy` writes the source at the offset and leaves the rest of the buffer alone |
| Sha256.SplitMessage | include/littlesmith/crypto/SHA256.h:145-148 | the fill bytes, at most 2^25 whole blocks, and the bytes left over make up the message |
| Sha256.LongCounts | include/littlesmith/crypto/SHA256.h:153 | `m_tot_len` grows by the blocks compressed, modulo 2^32 |
| Sha256.UpdateLong | include/littlesmith/crypto/SHA256.h:145-153 | after a long update the input is the compressed prefix followed by the bytes left over |
| Sha256.PaddedAsWritten | include/littlesmith/crypto/SHA256.h:156-172 | the message as `final` pads it: a whole number of blocks, starting with the message and then 0x80 |
| Sha256.PaddingAgrees | include/littlesmith/crypto/SHA256.h:161-167 | below 2^29 bytes of input, `final` pads exactly as section 5.1.1 of FIPS 180-4 does |
| Sha256.PaddingWraps | include/littlesmith/crypto/SHA256.h:163 | at 2^29 bytes the 32-bit length word wraps, and the padding is not that of FIPS 180-4 |
| Sha256.FinalCounts | include/littlesmith/crypto/SHA256.h:161-163 | two blocks iff more than 55 bytes wait; the blocks leave room for the FIPS zero count; `len_b` is eight times the input length modulo 2^32 |
| Sha256.FinalPadding | include/littlesmith/crypto/SHA256.h:165-167 | the waiting bytes, 0x80, zeros and the length word complete the padded message |
| Sha256.PadBlock | include/littlesmith/crypto/SHA256.h:164-167 | `memset`, the 0x80 byte and `unpack` leave waiting bytes, 0x80, zeros and the big-endian length in the block |
| Sha256.UnpackInto | include/littlesmith/crypto/SHA256.h:52-57 | the four bytes of the word, most significant first, land at the offset, and nothing else changes |
| Sha256.WriteDigest | include/littlesmith/crypto/SHA256.h:169-171 | the digest loop writes the eight words big-endian into the first 32 bytes |
| Sha256.DigestWord | include/littlesmith/crypto/SHA256.h:170 | bytes 4i to 4i + 3 of the digest are word i, big-endian |
| Sha256.SHA256.FinalInto | include/littlesmith/crypto/SHA256.h:156-172 | the hash value is the hash of the padded input, and the first 32 bytes of `digest` are its big-endian words; unless `digest` is the block itself, the rest of `digest` is unchanged and the block holds the padded tail of the input after the compressed prefix |
| Sha256.SHA256.Final | include/littlesmith/crypto/SHA256.h:174-178 | 32 bytes, the digest of the final hash value; below 2^29 bytes of input, the SHA-256 hash of the input |
| CommandLine.NewArgument | include/littlesmith/util/Arguments.h:48-53 | a new argument is not set, its text value is its default, and it has no description and no message |
| CommandLine.SetValue | include/littlesmith/util/Arguments.h:56 | the argument is set and its text value is the given value; its declaration, description and message are unchanged |
| CommandLine.Check | include/littlesmith/util/Arguments.h:288-305 | no contract of its own: the message `check()` stores, or none when it passes; `CheckMeaning` states which |
| CommandLine.ToString | include/littlesmith/util/Arguments.h:314-332 | no contract of its own: the usage token of one option; `ToStringShape` states its shape |
| CommandLine.CheckType | include/littlesmith/util/Arguments.h:259-263 | passes iff the declared type is the one asked for, and otherwise is "invalid type" |
| CommandLine.ValueString | include/littlesmith/util/Arguments.h:117 | for a STRING argument, the stored text once set, else the default |
| CommandLine.ValueInt | include/littlesmith/util/Arguments.h:119 | for an INT argument whose text `strto<int>` accepts, its value |
| CommandLine.ValueLong | include/littlesmith/util/Arguments.h:121 | the same with `strto<long>` |
| CommandLine.ValueBool | include/littlesmith/util/Arguments.h:127 | for a BOOL argument whose lower-cased text is a yes/no word, true exactly for yes, on and true |
| CommandLine.ParsePoint | include/littlesmith/util/Arguments.h:129-133 | the point is the pair `parsePair` reads with "[:]", and fails exactly as it does |
| CommandLine.ValuePoint | include/littlesmith/util/Arguments.h:129-133 | for a POINT argument whose text reads as a pair, that point |
| CommandLine.ValueRectangle | include/littlesmith/util/Arguments.h:135-151 | succeeds iff the text splits on "-" into exactly two points; each invalid_argument becomes "wrong format for rectangle" and an out_of_range passes through |
| CommandLine.CheckMeaning | include/littlesmith/util/Arguments.h:265-305 | a required argument never set fails with "not optional"; otherwise STRING passes, and every other type passes iff its getter returns, with "could not be parsed" or "is out of range" |
| CommandLine.ToStringShape | include/littlesmith/util/Arguments.h:314-332 | the usage token names both forms, is bracketed iff the option is optional, and shows the default, "(value)" or nothing for a switch |
| CommandLine.CheckKey | include/littlesmith/util/Arguments.h:334-346 | succeeds iff the key is a short or long name, then naming that option; otherwise "Undefined argument '<key>'" |
| CommandLine.InsertPermutes | include/littlesmith/util/Arguments.h:78 | inserting a key into the map's order adds exactly that key |
| CommandLine.MapOrderSorted | include/littlesmith/util/Arguments.h:222 | the order a `std::map` visits its keys is increasing and holds each key once |
| CommandLine.Commit | include/littlesmith/util/Arguments.h:214-217 | status 3 stores the value in the argument and keeps the registry's shape and the messages |
| CommandLine.Step | include/littlesmith/util/Arguments.h:169-217 | one turn of the token loop keeps the scanning invariant and the shape of the options |
| CommandLine.Run | include/littlesmith/util/Arguments.h:168-218 | the token loop over all tokens keeps the scanning invariant and the shape of the options |
| CommandLine.StepUnknownKey | include/littlesmith/util/Arguments.h:197-200 | an undefined key adds exactly its message, stores nothing and keeps expecting a key |
| CommandLine.StepSwitch | include/littlesmith/util/Arguments.h:189-192 | a switch stores "true", whatever follows its '=' |
| CommandLine.StepValueKey | include/littlesmith/util/Arguments.h:170-195 | a non-switch without '=' waits for its value; an inline value starting with '"' starts collecting; any other inline value is stored |
| CommandLine.StepValueToken | include/littlesmith/util/Arguments.h:201-207 | the token after a key is its value, unless it opens a quote |
| CommandLine.StepCollect | include/littlesmith/util/Arguments.h:208-213 | while collecting, the value becomes " " + token, and any token ending with '"' closes it |
| CommandLine.StepMessages | include/littlesmith/util/Arguments.h:168-218 | one turn adds at most one message, and only for an undefined key |
| CommandLine.RunMessages | include/littlesmith/util/Arguments.h:168-218 | the token loop only appends messages, each naming an undefined key |
| CommandLine.CheckAllMessages | include/littlesmith/util/Arguments.h:222-226 | the check loop appends one message per failing argument, in key order |
| CommandLine.CheckAllArguments | include/littlesmith/util/Arguments.h:222-226 | the check loop changes nothing but the messages stored in the failing arguments |
| CommandLine.CheckAllShape | include/littlesmith/util/Arguments.h:222-226 | the check loop keeps every declaration and what the scanner stored |
| CommandLine.Parsed | include/littlesmith/util/Arguments.h:168-226 | the two loops keep the declarations, and switches still hold booleans |
| CommandLine.SwitchValue | include/littlesmith/util/Arguments.h:227 | `getValue<bool>` of a switch is whether it was given |
| CommandLine.MaxNames | include/littlesmith/util/Arguments.h:393-402 | no option's long name plus short name is longer |
| CommandLine.MaxNamesIsMax | include/littlesmith/util/Arguments.h:393-402 | the maximum is reached by one of the options |
| CommandLine.WrapCounter | include/littlesmith/util/Arguments.h:378-392 | the usage line's counter is the current line's length until the first break, and past 80 after it |
| CommandLine.WrapAfterBreak | include/littlesmith/util/Arguments.h:384-389 | past column 80 the current line is ended and the next token goes on a line indented under the application name |
| CommandLine.OptionLinesLayout | include/littlesmith/util/Arguments.h:403-419 | an option's lines are its names then its wrapped description in the column, continuation lines indented, and an "optional" line for optional values |
| CommandLine.ParseEffectSpec | include/littlesmith/util/Arguments.h:153-232 | parse keeps the registry, succeeds iff there are no messages and --help was not given, and otherwise prints the usage text once |
| CommandLine.Arguments.constructor | include/littlesmith/util/Arguments.h:422-425 | version 1.0.0 and the single switch --help / -h with its description |
| CommandLine.Arguments.DefineHelp | include/littlesmith/util/Arguments.h:423-424 | the help switch is defined and described |
| CommandLine.Arguments.SetVersion | include/littlesmith/util/Arguments.h:89 | sets the version |
| CommandLine.Arguments.SetCopyright | include/littlesmith/util/Arguments.h:90 | sets the copyright |
| CommandLine.Arguments.SetDescription | include/littlesmith/util/Arguments.h:91 | sets the description |
| CommandLine.Arguments.DefineValue | include/littlesmith/util/Arguments.h:234-245 | fails iff the short or long name is taken (the short name is looked at first), changing nothing; otherwise adds the option under both names at the end of the key list |
| CommandLine.Arguments.DefineSwitch | include/littlesmith/util/Arguments.h:247-257 | the same for an optional BOOL switch defaulting to "false" |
| CommandLine.Arguments.Define | include/littlesmith/util/Arguments.h:234-257 | the body both define methods share: fails iff the short or long name is taken, with the short-name message first, changing nothing; otherwise adds the argument under both names at the end of the key list, keeping the registry invariant |
| CommandLine.Arguments.AddDescription | include/littlesmith/util/Arguments.h:348-351 | sets the description of the option a short or long name selects, and otherwise fails with "Undefined argument" |
| CommandLine.Arguments.Lookup | include/littlesmith/util/Arguments.h:99 | the option a short or long name selects, or "Undefined argument" |
| CommandLine.Arguments.Parse | include/littlesmith/util/Arguments.h:153-232 | the object's options, messages, header flag, output and verdict are those of the specified parse |
| CommandLine.Arguments.Store | include/littlesmith/util/Arguments.h:153-232 | the application name, options, messages, header flag and output become exactly the values parse computed, and the object invariant holds |
| CommandLine.Arguments.ScanTokens | include/littlesmith/util/Arguments.h:168-218 | the token loop leaves the options and messages of the specified run |
| CommandLine.Arguments.ScanToken | include/littlesmith/util/Arguments.h:169-217 | one turn of the loop body is one specified step |
| CommandLine.Arguments.ParseTokens | include/littlesmith/util/Arguments.h:168-231 | the loops leave the specified options and messages, and the verdict holds iff there are no messages and --help was not given |
| CommandLine.Arguments.CheckArguments | include/littlesmith/util/Arguments.h:222-226 | the check loop leaves the specified options and messages |
| CommandLine.Arguments.PrintHeader | include/littlesmith/util/Arguments.h:352-367 | writes the header once, and nothing when it was already printed |
| CommandLine.Arguments.Emit | include/littlesmith/util/Arguments.h:352-421 | each `std::cout << line << std::endl` of printHeader and printUsage: the output is the old output followed by the lines, in order |
| CommandLine.Arguments.PrintUsage | include/littlesmith/util/Arguments.h:369-421 | writes the header if not yet printed, then the errors, the usage line and the option blocks |
| CommandLine.Arguments.UsageLine | include/littlesmith/util/Arguments.h:378-392 | the usage line loop writes the wrapped usage line |
| CommandLine.Arguments.Column | include/littlesmith/util/Arguments.h:393-402 | the description column is 8 past the longest long name plus short name |
| CommandLine.Arguments.OptionsText | include/littlesmith/util/Arguments.h:403-419 | the option loop writes every option's lines in declaration order |
| CommandLine.Arguments.OptionText | include/littlesmith/util/Arguments.h:404-418 | the lines of one option |
| CommandLine.DefineKeepsRegistry | include/littlesmith/util/Arguments.h:234-257 | a new option under two unused names keeps the registry invariants and the help switch |

## Left out

- Text is not decoded. Each `char` of a Dafny string stands for one byte of the `std::string`, so non-ASCII text is its UTF-8 bytes, one `char` per byte. Every length, width, position and cut counts bytes: the `to_block` widths and chunk cuts, the `align_text` padding, the 80-column usage counter and the name column, and the `substr`/`idx` positions of the conversions. On such text the model therefore gives the source's results, including cuts inside a multi-byte sequence. The model does not restrict strings to characters below 256; a `char` of 256 or more does not stand for any byte, and results on it are not meaningful.
- Floating-point conversion. `strto<float>`, `strto<double>` and `strto<long double>` are not modelled. A FLOAT option is checked by a `FloatCheck` parameter that stands for `strto<double>`.
- The generic `strto<T>` and `argument::value<T>` fallbacks are left out. Only their specialisations are ever instantiated.
- The `Exceptions.h` and `Compat.h` formatting helpers (`formatException`, `sprintf_s`) are left out. `LINEFEED` is kept as the POSIX "\n".
- `hashString` is left out. It writes each digest byte as a raw character, padded to width 2 with '0', and there is no hex conversion. Only the digest bytes are modelled.
- `SHA256::update(std::string)` is left out. It only reinterprets the characters as bytes.
- `multirenamer`, `main` and the filesystem are not part of this model.
- `parse` does not read `argv[0]`. The application's file name is the parameter `app`.
- Standard output is the sequence `out` of lines, each ended by `std::endl`.
- Exceptions are modelled as results, never thrown. A source path that would raise is an `Err` or a `Fail` value.
- Undefined behaviour in the source is modelled as a precondition:
  - `split` with an empty delimiter, which never terminates;
  - `to_block` with width 0;
  - `join` of no parts;
  - a `key=` token whose `parts[1]` does not exist (see `StepDefined`);
  - shifts by 32 or more;
  - a rotation by 0.
- CommandLine.Arguments.PrintUsage: requires every option to have a description that is not blank (`Printable`). `printUsage` reads `lines[0]` of the option's block (Arguments.h:405-408), and the block of a blank description is empty, so that read is undefined behaviour. `defineValue` without a following `addDescription` leaves exactly such a description, so this is a defect of the source that the model excludes rather than describes.
- CommandLine.Arguments.PrintUsage: requires the longest long and short names plus 8 to stay below 80 (`Printable`). At exactly 80 the block width `80 - max` is 0, which `to_block` cannot lay out (undefined behaviour). Above 80 the `size_t` subtraction wraps around and `to_block` receives a width close to 2^32. That case is well defined in the source, since no word is then long enough to be cut, but the model does not describe it.
- CommandLine.Arguments.Parse: requires `Printable` through `Parsable` whenever it prints the usage text, for the same two reasons as `PrintUsage`; `ParseEffect` and `UsageLines` carry the same precondition.
- Sha256.SHA256.Transform: requires `block_nb` at most 2^25. The block offset `i << 6` is computed on the `int` loop index and overflows from i = 2^25 on, which is undefined behaviour, modelled as a precondition.
- Sha256.SHA256.TransformBoth: requires `block_nb` at most 2^25, for the same `i << 6` overflow in `transform`.
- Sha256.SHA256.Update: requires `m_len + len` below 2^31 + 128. Above that, `update` hands `transform` more than 2^25 blocks and reaches the `i << 6` overflow, before the `unsigned int` sum `m_len + len` itself could wrap at 2^32.
- Sha256.SHA256.UpdateBlocks: requires `m_len + len` below 2^31 + 128, for the same reason as `Update`.
- Sha256.SHA256.Final: equals the SHA-256 of the input only below 2^29 bytes. The source writes a 32-bit bit-length, and `PaddingWraps` shows the divergence at 2^29.
- Sha256.SHA256.FinalInto: does not describe `digest` beyond byte 32 when `digest` is the context's own block.
- Sha256.SHA256.Update: does not describe the stale bytes of `m_block` after `m_len`.
