# OpenADS: a verified model of its filters, indexes, codecs and records

OpenADS is a database engine for DBF and ADT tables.  This Dafny project models the parts of it whose
correctness is a matter of logic rather than of I/O, and proves what they promise.
`dafny verify dfyconfig.toml` checks everything.

| file | module(s) | what it models |
|---|---|---|
| `Text.dfy` | `Text` | C-locale character classes, scanning, decimal numerals |
| `AofLexer.dfy` | `Aof`, `AofLexer` | syntax trees of Advantage Optimized Filters; the lexer |
| `AofParser.dfy` | `AofParser` | the recursive-descent parser |
| `AofGrammar.dfy` | `AofGrammar` | the documented grammar as derivation trees; the parser accepts exactly it |
| `AofSpelling.dfy` | `AofSpelling` | how each token is spelled; the lexer reads exactly the spellings |
| `AofPrinter.dfy` | `AofPrinter` | the printer |
| `AofRoundTrip.dfy`, `AofExact.dfy` | same names | printing and parsing undo each other, and exactly when |
| `KeyOrder.dfy` | `KeyOrder` | byte order, padded keys, and which literals a key keeps apart |
| `AofIndex.dfy` | `AofIndex` | a sorted index with its cursor, for the CDX and the NTX driver; range walks |
| `AofEval.dfy` | `AofEval` | tables, comparison of a field with a literal, the full scan |
| `AofServe.dfy` | `AofServe` | one leaf answered by walking an index |
| `AofOptimiser.dfy` | `AofOptimiser` | the optimised evaluator, and when it equals the full scan |
| `FtsTokens.dfy`, `FtsIndex.dfy`, `FtsLoad.dfy`, `FtsSearch.dfy` | same names | the full-text index: tokens, building and writing, loading, searching |
| `Charset.dfy`, `CharsetTheory.dfy` | same names | UTF-16 and UTF-8 codecs with repair; the RFC definitions and the round trips |
| `CodePage.dfy` | `CodePage` | CP437 to and from UTF-8 |
| `Calendar.dfy` | `Calendar` | Julian Day Numbers against the Gregorian calendar |
| `Dbf.dfy`, `FieldLayout.dfy` | same names | field types, little-endian integers; the field descriptors of a header |
| `DateText.dfy` | `DateText` | dates and times of day as text |
| `Record.dfy`, `RecordMap.dfy`, `RecordMeaning.dfy` | same names | encoders and decoders over one record buffer; the buffer as a map; what its bytes mean |

Code that changes state in the source is a class or a method here (the lexer's position, the parser's
current token, the printer's stream, the index cursor, the leaf counter, the record buffer), each proved
against a specification function; the lemmas are about those functions.  A byte is a bounded integer in the
codecs and a `char` below 256 elsewhere.

## Where the code does less than its comments say

These are results, each with the exact condition or a whole family of inputs.

* `src/engine/aof_eval.h:7-11` promises one bitmap from both evaluators.  A soft seek on an NTX index past
  every key leaves the cursor on the last entry (`src/drivers/ntx/ntx_index.cpp:343-347`), which `>`, `>=`
  and `BETWEEN` then mark.  `ServedExactly` proves that, on a faithful index and with literals its keys keep
  apart, this is the only difference; `Overshoot` builds a one-record example.  A CDX index never overshoots.
* The full scan compares the literal as it stands, an index compares it padded or cut to the key length.
  `LeafExactness` says for each operator exactly which literals that leaves unharmed.  Control bytes apart,
  the literal of `=`, `!=`, `<` and `>=` must have no trailing blank and fit the key, that of `<=` and `>`
  may be any, for `BETWEEN` only the lower bound matters, and for `IN` each cut literal must itself be in
  the list.  A control byte inside the key misplaces a literal of any order operator; in `BETWEEN` each bound
  may be inexact where the other bound shuts out the one text it would misplace.
* `src/engine/aof_expr.cpp:24-27` promises an error for any construct the parser does not know.  A lexical
  error after the first token reads as the end of the text.  `AcceptedExactly` says when such a text is
  accepted all the same; `JunkIsIgnored` and `AtSignIsJunk` give families of them.
* A printed filter parses back to itself exactly under the conditions of `RoundTripExactly`: a negative
  integer, a string with a single quote, a field called `in`, or a conjunction of one member does not.
* A line break in the tag of a full-text index adds a posting of the tag's choice to the loaded index:
  `SmuggledPosting`.  `HeaderAddsNothing` and `FileRoundTrip` give the exact conditions on the header's lines.
* `decode_field` reads DateTime, ModTime and AdtTimestamp fields as a day number and milliseconds, but
  `encode_field_string` has a branch for AdtTimestamp only: `StampSurvivesExactly` proves that a time stamp
  survives there and in neither of the other two.
* `encode_field_logical` writes one byte even into a field of length 0: `LogicalStaysInside` proves that this
  byte lies outside the field exactly then.

## Model

| member | source | states |
|---|---|---|
| `AofLexer.Lexer.Next` | src/engine/aof_expr.cpp:64-111 | From any position the lexer returns the token, or the error, that `Lex` defines, and stops right behind it or at the offending character. |
| `AofLexer.Lexer.TryDotKeyword` | src/engine/aof_expr.cpp:171-199 | A Clipper keyword between dots is consumed; anything else leaves the position where it was. |
| `AofLexer.Lexer.ReadNumber` | src/engine/aof_expr.cpp:143-170 | Digits with an optional fraction; an integer saturates at the largest 64-bit value. |
| `AofSpelling.WordMeans` | src/engine/aof_expr.cpp:200-228 | A bare word is the keyword it spells in any letter case, `T`, `TRUE`, `F` and `FALSE` are truth values, and any other word is an identifier. |
| `AofSpelling.DotKeywordMeans` | src/engine/aof_expr.cpp:171-199 | Between dots `AND`, `OR`, `NOT`, `T`, `Y`, `F` and `N` in any letter case are the Clipper keywords, and nothing else is. |
| `AofSpelling.SymbolReads` | src/engine/aof_expr.cpp:87-99 | `=` and `==` are equality, `!=`, `<>` and `#` inequality, `!` negation, and the longest operator wins. |
| `AofSpelling.StringReads` | src/engine/aof_expr.cpp:131-142 | A string is what stands between two quotes of one kind. |
| `AofSpelling.NumberReads` | src/engine/aof_expr.cpp:143-170 | Digits are the number they denote, at most the largest 64-bit integer; digits around a point are that decimal fraction. |
| `AofSpelling.LexAtReads` | src/engine/aof_expr.cpp:64-111 | A token is read from one place to another exactly when that text spells it and nothing behind continues it. |
| `AofSpelling.LexerReadsSpellings` | src/engine/aof_expr.cpp:6-23 | The lexer reads a text as a list of tokens if and only if the text spells those tokens, with white space between them. |
| `AofSpelling.SpellingDoesNotMatter` | src/engine/aof_expr.cpp:18-23 | Two spellings of the same tokens, Clipper or SQL, parse to the same filter. |
| `AofSpelling.AcceptsSpellings` | src/engine/aof_expr.cpp:6-16 | A text that lexes is accepted exactly when it spells tokens that derive a tree in the grammar. |
| `AofSpelling.TruthIsOneOrZero` | src/engine/aof_expr.cpp:322-340 | A truth value is the literal 1 or 0, however it is spelled. |
| `AofParser.ParseFilter` | src/engine/aof_expr.cpp:458-461 | The parser object and its lexer compute the recursive specification `Parse` for every source text, errors included. |
| `AofParser.Parser.ParseTop` | src/engine/aof_expr.cpp:237-247 | The result covers the whole text; an error in the first token or a token left over is reported. |
| `AofParser.Parser.ParseOr` | src/engine/aof_expr.cpp:270-283 | One disjunction is read from the front of the tokens and exactly the tokens after it remain. |
| `AofParser.Parser.ParseLeaf` | src/engine/aof_expr.cpp:342-396 | A comparison, BETWEEN or IN leaf is read; BETWEEN consumes its own AND. |
| `AofGrammar.ParserMeetsGrammar` | src/engine/aof_expr.cpp:6-16 | A text parses to a tree if and only if its first token lexes and its tokens derive that tree in the documented grammar. |
| `AofGrammar.GrammarIsUnambiguous` | src/engine/aof_expr.cpp:6-16 | No token sequence derives two different trees. |
| `AofGrammar.OrSound` | src/engine/aof_expr.cpp:270-320 | Whatever the parser accepts has a derivation whose yield is what it consumed: NOT binds before AND, AND before OR. |
| `AofGrammar.OrComplete` | src/engine/aof_expr.cpp:270-320 | Whatever the grammar derives, the parser accepts, with the tree of the derivation. |
| `AofPrinter.ToString` | src/engine/aof_expr.cpp:463-467 | The stream printer writes the text `Show` of the tree. |
| `AofPrinter.ToStringRec` | src/engine/aof_expr.cpp:418-456 | Printing a node appends its text to whatever the stream holds and changes nothing before it. |
| `AofRoundTrip.LexFilter` | src/engine/aof_expr.cpp:60-230 | Wherever the printed text of a filter stands, it lexes to the yield of the filter's derivation. |
| `AofRoundTrip.RoundTrip` | src/engine/aof_expr.cpp:418-461 | A printable filter survives printing and parsing unchanged. |
| `AofExact.ParsedIsShaped` | src/engine/aof_expr.cpp:270-396 | Every parsed tree has conjunctions and disjunctions of at least two members, the literals each operator takes, and non-keyword field names; every literal of the text is in the tree, in order. |
| `AofExact.RoundTripExactly` | src/engine/aof_expr.cpp:398-467 | A filter without reals survives printing and parsing if and only if it is printable. |
| `AofExact.AcceptedExactly` | src/engine/aof_expr.cpp:237-257 | A text that lexes is accepted exactly when all its tokens derive a tree; any other text exactly when its first token lexes and the tokens before the lexical error derive one. |
| `AofExact.JunkIsIgnored` | src/engine/aof_expr.cpp:254-257 | Whatever follows a printed filter is dropped if it does not lex: the filter parses as if it stood alone. |
| `AofExact.AtSignIsJunk` | src/engine/aof_expr.cpp:106 | Such a text: a blank, an `@`, and anything after it. |
| `KeyOrder.PaddingPreservesOrder` | src/engine/aof_eval.cpp:213-217 | Padded keys of clean, trimmed strings that fit compare exactly as the strings do. |
| `KeyOrder.KeySeesCanon` | src/engine/aof_eval.cpp:213-227 | A key comparison places a field value against the literal cut to the key and trimmed, whatever the literal. |
| `KeyOrder.JustAbove` | src/engine/aof_eval.cpp:58-67 | A literal that continues a trimmed text with blanks, and then a control byte or more than a key holds, lies just above that text: no field value lies between. |
| `KeyOrder.PlaceAgainst` | src/engine/aof_eval.cpp:213-227 | Where the key comparison and the full scan place any field value against any literal: both next to one trimmed text, and on which side of it. |
| `KeyOrder.BetweenAgrees` | src/engine/aof_eval.cpp:302-311 | For BETWEEN the two paths part exactly at the text of an inexact bound that the other bound lets in. |
| `KeyOrder.ExactAgrees` | src/engine/aof_eval.cpp:58-75 | If the literals are exact for the operator, index and full scan agree on every field value. |
| `KeyOrder.LeafExactness` | src/engine/aof_eval.cpp:213-227 | Index and full scan agree on every field value if and only if the literals are exact for the operator. |
| `AofIndex.Index.SeekFirst` | src/drivers/cdx/cdx_index.cpp:625-665 | The cursor stands on the first entry, or the index is empty. |
| `AofIndex.Index.SeekKey` | src/drivers/cdx/cdx_index.cpp:699-776 | For a key of any length: the seek lands on the first entry of the run of equal keys; a soft seek else on the first greater key; past every key CDX is unpositioned and NTX stands on its last entry; where a missed seek leaves the cursor. |
| `AofIndex.Index.ShortKey` | src/drivers/cdx/cdx_index.cpp:706-714 | A CDX seek for a key shorter than the index keys finds those that begin with it. |
| `AofIndex.Index.WholeKey` | src/drivers/ntx/ntx_index.cpp:323-328 | An NTX seek pads or cuts its key and compares whole keys; so does CDX for a key that is long enough. |
| `AofIndex.Index.AfterMiss` | src/drivers/cdx/cdx_index.cpp:778-812 | After a missed hard CDX seek the walk goes on with the first greater key, or around to the first of all; after a soft one it is over. |
| `AofIndex.Index.Next` | src/drivers/cdx/cdx_index.cpp:778-844 | The cursor moves to the entry behind it; after a missed CDX seek to the first greater key, or around to the first entry; after the last entry it is unpositioned. |
| `AofIndex.LowerBound` | src/drivers/ntx/ntx_index.cpp:327-342 | Everything before the position is below the key, and the entry at it is not. |
| `AofIndex.MarkBits` | src/engine/aof_eval.cpp:237-247 | Marking a range of entries sets the bits of exactly their records. |
| `AofIndex.RangeWalk` | src/engine/aof_eval.cpp:232-250 | The walk marks exactly the entries from the start to the first rejected one, and terminates. |
| `AofEval.Evaluate` | src/engine/aof_eval.cpp:157-167 | The full scan leaves one bit per record: the value of the filter on that record. |
| `AofEval.HoldsOnNumbers` | src/engine/aof_eval.cpp:77-87 | On number fields each operator is the relation between the field's number and the literal's, an integer standing for itself. |
| `AofEval.HoldsOnTruths` | src/engine/aof_eval.cpp:88-102 | On logical fields false is less than true; a literal is true for a number other than 0 or a text that starts with T, Y or 1. |
| `AofEval.HoldsOnTexts` | src/engine/aof_eval.cpp:66-76 | On text and date fields each operator is byte order between the trimmed text and the literal's, an integer standing for its decimal digits. |
| `AofEval.HoldsOnOthers` | src/engine/aof_eval.cpp:103-104 | A field of any other type equals every literal. |
| `AofEval.LeafReads` | src/engine/aof_eval.cpp:108-114 | A leaf reads the first field of its name in any letter case, and never matches if there is none. |
| `Dbf.FirstOfName` | src/engine/table.cpp:92-124 | A field is found by its name in any letter case, the first one first. |
| `Text.FoldsCase` | src/engine/aof_eval.cpp:195-201 | Folding to capitals or small letters identifies the two cases of an ASCII letter and nothing else. |
| `AofServe.FindIndex` | src/engine/aof_eval.cpp:203-211 | The index found is one of the table's, and its expression is the wanted name without regard to case; if there is none, no index has that expression. |
| `AofServe.ServedWhen` | src/engine/aof_eval.cpp:255-271 | A leaf is served exactly when its first field of the name is Character or Memo, the table has an index of the name, and the literals are strings; the first such index serves it. |
| `AofServe.BelowComesFirst` | src/engine/aof_eval.cpp:273-311 | In a sorted index the keys below, or at most, a bound form a prefix. |
| `AofServe.WalkFrom` | src/engine/aof_eval.cpp:232-250 | A walk is the scan for an operator if nothing before its start satisfies it and nothing after its end does. |
| `AofServe.EqScan` | src/engine/aof_eval.cpp:273-281 | Whatever the cursor was, exactly the records with this key are added to the bitmap. |
| `AofServe.LeScan` | src/engine/aof_eval.cpp:283-290 | Exactly the records with a key up to the bound are added. |
| `AofServe.LtScan` | src/engine/aof_eval.cpp:326-339 | Exactly the records with a smaller key are added. |
| `AofServe.SoftSeek` | src/drivers/ntx/ntx_index.cpp:343-347 | What a soft seek skips is below the key; what it does not skip is not, unless an NTX seek overshoots, and then it stands on the last entry. |
| `AofServe.GeScan` | src/engine/aof_eval.cpp:292-300 | Exactly the records with a key from the bound on are added, and the last record if the seek overshoots. |
| `AofServe.GtScan` | src/engine/aof_eval.cpp:346-364 | After the skipped run of equal keys, exactly the records with a greater key are added, and the last one on an overshoot. |
| `AofServe.BetweenScan` | src/engine/aof_eval.cpp:302-311 | Exactly the records with a key within both bounds are added, none if they are reversed, and the last one on an overshoot. |
| `AofServe.NeScan` | src/engine/aof_eval.cpp:384-416 | The complement of the equal scan over all records. |
| `AofServe.InScan` | src/engine/aof_eval.cpp:374-383 | Repeated seeks add up to the records with any of the keys; one literal that is no string leaves the leaf unserved. |
| `AofServe.ServeLeaf` | src/engine/aof_eval.cpp:255-419 | A leaf is served if and only if it has a Character or Memo field with a matching index and string literals, and then each bit is that of the scan. |
| `AofOptimiser.EvalOptimised` | src/engine/aof_eval.cpp:424-494 | The result has one bit per record, so the size-mismatch errors never arise; the counters grow by the number of leaves and of served leaves. |
| `AofOptimiser.EvalAnd` | src/engine/aof_eval.cpp:443-463 | A conjunction of bitmaps, all true for no member. |
| `AofOptimiser.EvalOr` | src/engine/aof_eval.cpp:464-482 | A disjunction of bitmaps, all false for no member. |
| `AofOptimiser.EvaluateOptimised` | src/engine/aof_eval.cpp:498-509 | Where every served leaf is answered right the bitmap is the full scan's; the level is FULL when there is a leaf and every leaf is served, NONE when no leaf is, PART otherwise. |
| `AofOptimiser.HoldsOnText` | src/engine/aof_eval.cpp:58-67 | On text fields and string literals the full scan decides by the trimmed text in byte order. |
| `AofOptimiser.FaithfulBit` | src/engine/aof_eval.cpp:232-417 | On a faithful index a scan sets exactly the bits of the records whose padded field satisfies the operator, and the last entry's on an overshoot. |
| `AofOptimiser.ServedExactly` | src/engine/aof_eval.h:59-64 | On a faithful index with exact literals the served bitmap equals the full scan's if and only if the seek does not overshoot. |
| `AofOptimiser.BitsAgree` | src/engine/aof_eval.cpp:424-494 | If every served leaf is answered right, the whole filter is, on every record. |
| `AofOptimiser.OptimisedIsScan` | src/engine/aof_eval.h:7-11 | The optimised evaluator's bitmap is the full scan's. |
| `AofOptimiser.Overshoot` | src/drivers/ntx/ntx_index.cpp:343-347 | A table with one record on which the two evaluators differ. |
| `FtsTokens.Tokenise` | src/engine/fts.cpp:36-59 | The loop computes the tokens that `Tokens` defines. |
| `FtsTokens.TokensDistribute` | src/engine/fts.cpp:36-59 | The tokens of two texts joined by a delimiter are the tokens of the first and then those of the second. |
| `FtsTokens.TokensAreWords` | src/engine/fts.cpp:36-59 | The tokens are the words of the text in lower case and in order, without those too short, too long or in the noise set. |
| `FtsTokens.WordsAreRuns` | src/engine/fts.cpp:50-57 | The words are all the maximal delimiter-free parts of the text, from left to right and each once. |
| `FtsTokens.TokensArePlain` | src/engine/fts.cpp:15-28 | A token is not empty, meets the length and noise rules, and holds no default delimiter, whichever way `char` is signed. |
| `FtsTokens.TokenMeans` | src/engine/fts.cpp:36-59 | A token is exactly the small letters of a maximal run that is neither too short nor too long nor noise. |
| `FtsTokens.KeptStep` | src/engine/fts.cpp:40-48 | Each word gives one token, byte by byte the word's or its capital letter made small, or none if it is too short, too long or noise. |
| `FtsTokens.NoCapitals` | src/engine/fts.cpp:53-54 | No token holds a capital ASCII letter. |
| `FtsTokens.Delimiters` | src/engine/fts.cpp:15-32 | The delimiters: the caller's, in ASCII every byte up to `~` that is no letter or digit, and from 0x80 on every byte if `char` is signed. |
| `FtsTokens.CaseDoesNotMatter` | src/engine/fts.cpp:50-57 | Texts that differ in letter case only have the same tokens, if the extra delimiters hold both cases of a letter or neither. |
| `FtsTokens.CaseExactly` | src/engine/fts.cpp:30-32 | Letter case never moves a word if and only if the extra delimiters hold both cases of a letter or neither. |
| `FtsIndex.InsertMeans` | src/engine/fts.cpp:70-81 | Adding a posting keeps the tokens sorted and the record numbers ascending, and changes only that token's list. |
| `FtsIndex.Build` | src/engine/fts.cpp:70-81 | A record number is listed under a token if and only if the record is live and its field has the token. |
| `FtsIndex.IndexIsUnique` | src/engine/fts.h:25-27 | The built postings are determined by the table: two builds write the same lines. |
| `FtsIndex.WriteList` | src/engine/fts.cpp:92-101 | The loop writes the record numbers in decimal, separated by commas. |
| `FtsIndex.Create` | src/engine/fts.cpp:61-107 | An unknown field is refused; otherwise the text is the header and one line for each token of the table's index. |
| `FtsIndex.SampleHeader` | src/engine/fts.h:20 | The header of an index with tag t, field f and the default lengths, in full. |
| `FtsLoad.ReadList` | src/engine/fts.cpp:131-141 | The loop appends every number of the list; empty items are skipped. |
| `FtsLoad.Load` | src/engine/fts.cpp:109-147 | The loader folds the lines of any text into postings; a text without a header line is refused. |
| `FtsLoad.RefusedExactly` | src/engine/fts.cpp:143-145 | A text is refused exactly when none of its lines starts with `#`. |
| `FtsLoad.CrLfLoads` | src/engine/fts.cpp:119-120 | A file with CRLF line ends loads as the file with LF line ends. |
| `FtsLoad.RecnoMeans` | src/engine/fts.cpp:136-137 | Any item of a list: white space, a sign, digits and what follows; too large a number saturates, a negative one wraps, and the result is cut to 32 bits. |
| `FtsLoad.ListBack` | src/engine/fts.cpp:92-141 | A written list of 32-bit record numbers reads back as itself. |
| `FtsLoad.LinesBack` | src/engine/fts.cpp:92-142 | Written lines add exactly their postings: none is taken for a header, an empty line or a line ended by CR. |
| `FtsLoad.MergeMeans` | src/engine/fts.cpp:130-139 | Loading appends to the list of each token and touches no other. |
| `FtsLoad.FileRoundTrip` | src/engine/fts.cpp:61-147 | The file gives back exactly the postings that were built if and only if each header line that passes for postings has a token of the index and nothing but commas behind its tab. |
| `FtsLoad.HeaderAddsNothing` | src/engine/fts.cpp:118-142 | The header adds no posting if and only if none of its lines, without a CR at its end, is a non-empty line with a tab that does not start with `#`. |
| `FtsLoad.PlainNames` | src/engine/fts.cpp:87-91 | Tag and field names without a line break make a header that adds none. |
| `FtsLoad.SmuggledPosting` | src/engine/fts.cpp:87-91 | For any token and record number there is a tag whose header adds that posting. |
| `FtsSearch.SetIntersection` | src/engine/fts.cpp:166-169 | The two-pointer loop computes `Intersection`. |
| `FtsSearch.Search` | src/engine/fts.cpp:149-175 | The search narrows the first token's list by those of the others; an unknown token or an empty query finds nothing. |
| `FtsSearch.HitsMean` | src/engine/fts.cpp:149-175 | On ascending lists the result is ascending and holds exactly the record numbers that every token lists. |
| `FtsSearch.QueryCase` | src/engine/fts.h:67-70 | A query finds the same records in any letter case. |
| `FtsSearch.EndToEnd` | src/engine/fts.cpp:36-175 | Under the condition of the file round trip, building, writing, loading and searching find exactly the live records that contain every token of the query, in ascending order. |
| `FtsSearch.CreateAndSearch` | src/engine/fts.h:67-70 | The same for the three operations run one after the other. |
| `Charset.ConvertUtf16leToUtf8` | src/abi/charset.cpp:39-80 | The loop encodes the code points read from the units. |
| `Charset.ConvertUtf8ToUtf16le` | src/abi/charset.cpp:82-131 | The loop encodes the code points read from the bytes. |
| `Charset.ReadUtf8` | src/abi/charset.cpp:90-120 | The code point and the number of bytes read at a position, repairs included. |
| `CharsetTheory.Utf16RoundTrip` | src/abi/charset.cpp:39-131 | UTF-16 to UTF-8 and back replaces each unpaired surrogate by U+FFFD and changes nothing else; it is the identity if and only if the text is well-formed. |
| `CharsetTheory.Utf8RoundTrip` | src/abi/charset.cpp:39-131 | UTF-8 to UTF-16 and back is well-formed UTF-8, and the text itself if and only if that is well-formed. |
| `CharsetTheory.Utf8RepairIsIdempotent` | src/abi/charset.cpp:39-131 | A second pass changes nothing. |
| `CharsetTheory.DecodedIsWellFormed16` | src/abi/charset.cpp:82-131 | Whatever the bytes, the UTF-16 is well-formed. |
| `CharsetTheory.DecoderReadsTheText` | src/abi/charset.cpp:88-123 | The decoder cuts every text in the one possible way: complete sequences and single bytes, a character read as itself and anything else as U+FFFD. |
| `CharsetTheory.DecodeAll8` | src/abi/charset.cpp:88-123 | Decoding an encoding gives the code points back. |
| `CharsetTheory.SurrogateBits` | src/abi/charset.cpp:121-127 | The surrogates of a code point hold ten bits each, as section 2.1 of RFC 2781 says. |
| `CharsetTheory.Utf8Bits` | src/abi/charset.cpp:63-77 | The bytes of a code point hold six bits each after the first, as section 3 of RFC 3629 says. |
| `CodePage.Cp437ToUtf8` | src/engine/codepage.cpp:63-72 | The loop encodes the code point of each byte. |
| `CodePage.Utf8ToCp437` | src/engine/codepage.cpp:74-119 | The loop writes one byte for each code point it reads, `?` for one outside the table. |
| `CodePage.UpperBack` | src/engine/codepage.cpp:12-29 | The table is injective, and its code points lie in the BMP above ASCII and below the surrogates. |
| `CodePage.NarrowMeans` | src/engine/codepage.cpp:107-115 | ASCII stays, a table entry becomes its byte, and any other code point `?`. |
| `CodePage.StrayByte` | src/engine/codepage.cpp:82-106 | A byte that starts no sequence, or one cut off by the end of the text, is read as `?`. |
| `CodePage.Cp437RoundTrip` | src/engine/codepage.cpp:63-119 | CP437 to UTF-8 and back is the identity on every byte string. |
| `CodePage.OneUnitPerByte` | src/engine/codepage.cpp:63-72 | The UTF-8 of a CP437 text decodes to exactly one UTF-16 unit a byte. |
| `CodePage.WideningRoundTrip` | src/engine/codepage.cpp:63-119 | UTF-8 to CP437 and back is the identity if and only if the text is well-formed and CP437 has its characters. |
| `Calendar.YmdUndoesJdn` | src/drivers/dbf_common.cpp:196-215 | Every 32-bit day number decodes to a valid Gregorian date that encodes to it. |
| `Calendar.YmdRoundTrip` | src/drivers/dbf_common.cpp:196-215 | Every valid date whose day number fits 32 bits is recovered. |
| `Calendar.JdnWalksTheCalendar` | src/drivers/dbf_common.cpp:196-207 | Decoding day number n is walking n days through the calendar from 24 November -4713. |
| `Calendar.NextDayNumber` | src/drivers/dbf_common.cpp:209-215 | The next calendar day has the next day number. |
| `Calendar.DayNumberOrder` | src/drivers/dbf_common.cpp:209-215 | Day numbers are ordered exactly as the dates, and equal only for equal dates. |
| `FieldLayout.ParseFields` | src/drivers/dbf_common.cpp:82-128 | One field per descriptor up to the terminator or the end of the data, with the 16-bit running offset and the null bits. |
| `FieldLayout.KindMeans` | src/drivers/dbf_common.cpp:61-78 | Each field type comes from exactly its letters in byte 11, Unknown from all others. |
| `FieldLayout.AttributesMean` | src/drivers/dbf_common.cpp:97-118 | Length, decimals, nullable, autoincrement, its next number and its step are what bytes 16 to 23 hold; step 0 is read as 1. |
| `FieldLayout.NameMeans` | src/drivers/dbf_common.cpp:92-95 | The name is the longest prefix of at most eleven bytes without a zero byte. |
| `FieldLayout.ContiguousExactly` | src/drivers/dbf_common.cpp:85-119 | The fields are contiguous from offset 1 if and only if the last one starts within 16 bits. |
| `FieldLayout.ParsedIsLaid` | src/drivers/dbf_common.cpp:85-119 | Lengths that fit the record give pairwise disjoint fields inside it, behind the deletion byte. |
| `FieldLayout.NullBitsInOrder` | src/drivers/dbf_common.cpp:123-126 | The null bits of the nullable fields are exactly 0, 1, 2, ... in declaration order. |
| `DateText.DateBack` | src/drivers/dbf_common.cpp:522-526 | `stoi` on the parts of a printed date, with anything behind it, gives the date back. |
| `DateText.TimeBack` | src/drivers/dbf_common.cpp:533-543 | A printed time of day reads back as the same milliseconds, for every whole second of a day. |
| `DateText.StoiMeans` | src/drivers/dbf_common.cpp:523-525 | `stoi` reads white space, a sign and digits, with anything behind them, and fails without a digit. |
| `DateText.PaddedBack` | src/drivers/dbf_common.cpp:417-418 | A printed integer reads back, with its sign and leading zeros, and is as wide as asked. |
| `DateText.DateStringOrder` | src/drivers/dbf_common.cpp:407-420 | Texts of dates sort as the dates and as their day numbers. |
| `DateText.StoredDateOrder` | src/drivers/dbf_common.cpp:407-420 | Over the years 0000 to 9999 the decoded texts sort exactly as the stored day numbers. |
| `Record.EncodeFieldString` | src/drivers/dbf_common.cpp:512-565 | The buffer changes exactly in the bytes of the payload; a range past the buffer or a text `stoi` refuses leaves it alone. |
| `Record.EncodeFieldDouble` | src/drivers/dbf_common.cpp:567-641 | A binary type stores the truncated number, ten-thousandths for money, little-endian in two's complement; any other field, and one too short for its type, the formatted text cut or padded; nothing else changes. |
| `Record.EncodeFieldLogical` | src/drivers/dbf_common.cpp:643-652 | One byte changes, also for a field of length 0. |
| `Record.LogicalStaysInside` | src/drivers/dbf_common.cpp:643-652 | A logical write leaves everything outside its field alone if and only if the field is not empty. |
| `Record.SetRecordDeleted` | src/drivers/dbf_common.cpp:654-658 | Only the deletion byte changes. |
| `Record.DecodeField` | src/drivers/dbf_common.cpp:219-500 | The reader computes the meaning `SlotValue` of the field's bytes, or refuses a range past the buffer. |
| `Record.StripTail` | src/drivers/dbf_common.cpp:132-136 | The loop drops exactly the trailing padding. |
| `Record.WriteLe` | src/drivers/dbf_common.cpp:174-187 | The loop stores the low bytes of a number, lowest first, and changes no other byte. |
| `RecordMap.DateMeans` | src/drivers/dbf_common.cpp:407-420 | A printed date of the years 0000 to 9999 encodes to a day number that decodes to the same text, never to null. |
| `RecordMap.StampMeans` | src/drivers/dbf_common.cpp:422-444 | The same for date and time of day to the second. |
| `RecordMap.WriteMeans` | src/drivers/dbf_common.cpp:219-652 | A well-typed write is read back as what it means: text without padding, the signed number, money in ten-thousandths, the double, the truth value, the same date. |
| `RecordMap.NumberWriteMeans` | src/drivers/dbf_common.cpp:567-626 | A number in the range of a binary type is read back truncated to what the type holds. |
| `RecordMap.StepRefines` | src/drivers/dbf_common.cpp:512-658 | A write acts on the buffer as an update acts on the map: no other field and not the deletion byte change. |
| `RecordMap.RunRefines` | src/drivers/dbf_common.cpp:512-658 | So does any run of writes. |
| `RecordMap.LastWriteWins` | src/drivers/dbf_common.cpp:219-658 | After any run a field has the value of the last write to it, or its old value if there was none. |
| `RecordMap.StampSurvivesExactly` | src/drivers/dbf_common.cpp:244-562 | Of the three types that are read as date and time in binary, a written time stamp is read back in AdtTimestamp fields and in no other. |
| `RecordMeaning.TextBytes` | src/drivers/dbf_common.cpp:554-564 | A written text stands at the front of its field; behind it come zero bytes in Varchar and Varbinary fields, blanks in any other. |
| `RecordMeaning.VarcharBack` | src/drivers/dbf_common.cpp:335-353 | A text that fits and does not end in a zero byte is read back from Varchar and Varbinary as it is, trailing blanks included. |
| `RecordMeaning.CharacterBack` | src/drivers/dbf_common.cpp:132-136 | A text that fits is read back from the other text types without its trailing blanks and with nothing else lost. |
| `RecordMeaning.ShortIsText` | src/drivers/dbf_common.cpp:281-300 | A field too short for its binary type is read as text without trailing blanks. |
| `RecordMeaning.NumericValue` | src/drivers/dbf_common.cpp:138-145 | A Numeric field has its trimmed text and the number the platform reads in its first 63 bytes. |
| `RecordMeaning.LogicalByte` | src/drivers/dbf_common.cpp:269-274 | A logical field is true for T and Y in either case, and its text is its byte. |
| `RecordMeaning.IntegerMeans` | src/drivers/dbf_common.cpp:281-294 | Four bytes are a signed number in two's complement, lowest byte first, printed in decimal. |
| `RecordMeaning.ShortIntMeans` | src/drivers/dbf_common.cpp:355-366 | Two bytes are a signed number in two's complement. |
| `RecordMeaning.AutoIncMeans` | src/drivers/dbf_common.cpp:377-389 | Four bytes are an unsigned number. |
| `RecordMeaning.MoneyMeans` | src/drivers/dbf_common.cpp:586-604 | A number stored as money is read back as a whole number of ten-thousandths less than one away, toward zero. |
| `RecordMeaning.DoubleMeans` | src/drivers/dbf_common.cpp:309-334 | A double is printed with the decimals of its field, or in full if it has none. |
| `RecordMeaning.RowVersionMeans` | src/drivers/dbf_common.cpp:480-493 | A row version is the decimal text of its eight bytes, lowest first. |
| `RecordMeaning.FormattedNumber` | src/drivers/dbf_common.cpp:628-640 | A number written as text keeps its formatted text; a field of 64 bytes loses the last one to the end of the buffer. |
| `RecordMeaning.NullDates` | src/drivers/dbf_common.cpp:407-428 | Day number 0 is the null date, a time stamp is null if it is all zero, and no other is. |
| `RecordMeaning.ClockMeans` | src/drivers/dbf_common.cpp:390-406 | A time of day is printed as hours, minutes, seconds and milliseconds. |

## Left out

- CaseDoesNotMatter: extra delimiters that hold one case of a letter only are excluded, for which `CaseExactly` shows that letter case moves words.
- EncodeFieldDouble: a number outside the range of the integer type it is cast to, and a field written as text that is longer than the source's buffer of 64 bytes, are undefined behaviour in the source and excluded; what `snprintf` prints and the bytes of a `double` are parameters, and money is scaled without rounding.
- EncodeFieldLogical: an empty logical field at the very end of the buffer is excluded, for which the source writes past the buffer.
- DecodeField: an empty logical field at the very end of the buffer is excluded; `strtod`, number formatting and the value of the bytes of a `double` are parameters, and money is divided without rounding.
- WriteMeans: a Double is read back for the numbers that the platform itself reads back from their bytes.
- RoundTripExactly: filters with real literals are excluded; how a `double` prints is a parameter, and 5.0 prints as an integer.
- ServedExactly: a field value longer than the key, or with bytes below the space, is excluded by `Faithful`; the full scan then sees what a key does not.
- Build: a table of 4294967295 records or more is excluded, for which the 32-bit loop counter of the source does not end.
- Compare: an integer literal is compared as an exact number; the rounding of 64-bit integers to `double` is not modelled.
- Evaluate: record numbers are not bounded by 32 bits; the source's counter does not pass a table of 4294967295 records.
- FindIndex: the order of the open indexes is given; conditional, descending and unique indexes are not told apart by the source and are excluded by `Faithful` where they matter.
- SeekKey: `prev` and the ADI driver are not modelled, and the pages of CDX and NTX files are one sorted sequence.
- ReadUtf16: each turn of the codec loops is split into a method that reads a code point and one that pushes its units.
- Files are strings, and failures of files, of `goto_record` and of `read_field` do not occur.
- Error messages are constructors; their wording is not modelled.
- Locales other than "C" are not modelled.
- Loading memo blocks, tables with their drivers, transactions, locking, SQL and the wire protocol are outside this model.
- `parse_dbf_header`, `make_empty_record`, `copy_to_caller`, the cursor and the last-error store are too simple to be worth members.
