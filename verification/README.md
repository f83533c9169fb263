# Atom: nuclide data readers and the nucleon simulation, in Dafny

This project models the four pure cores of the Atom repository and proves
properties of them:

- **Nuclide identifiers and the master index** (`nuclide_data.py`).
  - ZAID to (Z, A) conversion.
  - The `Nuclide` constructor, over every kind of `nuc_id`, with the metastable rule and the default isomer energies.
  - `__repr__`, `__lt__` and `__eq__`.
  - The fixed-width wallet-card line reader.
  - The fold that builds `nuclides[(Z, A)][E]`.
  - The `isotopes` table and `isomers(Z, A)`.
- **Decay-mode expansion** (`main.py`).
  - `expand_decay_mode` with the abbreviation table of `get_decay_mode_mapping`.
  - The `colspecs` and `column_names` layout of a wallet-card line.
- **NIST record parsing** (`isotope_data.py`; `nuclide_data.py` repeats the same code).
  - Chunking a file's lines into records at blank lines.
  - `split_line` and `parse_one_chunk` with its value classification.
  - `do_if_present`.
  - Grouping records per atomic number.
  - That file's own `parse_one_wallet_line`.
- **The nucleon simulation** (`nucleon_simulation.py`).
  - `enforce_max_velocity`, `move`, `repulsion`, `strong_force` and `calculate_neighbors`.
  - The initial layout of 12 protons and 6 neutrons.
  - The order of one frame of the main loop.

Modules follow the source:

| Module | Models |
|---|---|
| `Zaid`, `Nuclides`, `WalletCards`, `MasterIndex` | `nuclide_data.py` |
| `DecayModes`, `ColumnLayout` | `main.py` |
| `NistRecords`, `IsotopeWallet` | `isotope_data.py` |
| `Simulation`, `Frame` | `nucleon_simulation.py` |
| `Text`, `Integers`, `Sorting`, `Outcomes` | the Python built-ins the source relies on |

The built-ins are `str.strip`, `str.split`, `str.upper`, `str.title`, `int()`, `str(int)` and `list.sort`. `Outcomes` holds Python's exceptions as a `Result`. Python 2's `int()` of text is `Integers.ParseInt`. It reads optional whitespace, an optional sign, optional whitespace again, at least one decimal digit and optional whitespace, so `int('- 5')` is -5.

Python exceptions are `Err(ValueError)`, `Err(KeyError)`, `Err(IndexError)` or `Err(AttributeError)`. The first statement that raises decides which one.

Floats are Dafny `real`s. Python's `float()` text parser is a parameter `toFloat: string -> Option<real>`. `math.sqrt` and `math.exp` are the fields of a `RealOps` parameter, and `Lawful(ops)` gives them only the laws the proofs need: a non-negative root whose square is its argument, and a positive exponential.

The random initial velocities are a parameter of `Simulation.Initial`. The symbol tables `z2sym`/`sym2z` come from the NIST data file; here they are a `SymbolTable` parameter whose `Valid()` requires them to be mutually inverse and to spell symbols like `U` or `Am`.

Three facts about the code shape the model:

- The simulation has no fragment detection, no bond strength and no stochastic beta decay. `decay` is `pass` and is never called.
- Walls reflect the velocity. Positions neither wrap around nor are clamped, so a nucleon can sit outside the box for a frame (`Simulation.MoveCanLeaveBox`).
- `isotope_data.py`'s `parse_one_wallet_line` returns nothing; see Findings.

## Model

| member | source | states |
|---|---|---|
| Zaid.Truncate | nuclide_data.py:260 | `int()` of a float truncates toward zero: the result is within one of the value, on the side of zero |
| Zaid.ZaidOfInt | nuclide_data.py:254-264 | every integer ZAID: at least four digits split into (n div 1000, n mod 1000) with the sign kept on Z; fewer digits raise `ValueError` |
| Zaid.ZaidOfLarge | nuclide_data.py:260-264 | a ZAID of four or more digits gives Z = n div 1000 and A = n mod 1000 |
| Zaid.ZaidOfNegative | nuclide_data.py:260-264 | a negative ZAID keeps its minus sign on Z and gives the last three digits as A |
| Zaid.ZaidOfShort | nuclide_data.py:260-262 | fewer than four digits leave an empty or sign-only Z text, and `int()` of it raises `ValueError` |
| Zaid.ZaidRoundTrip | nuclide_data.py:254-264 | for Z >= 1 and 0 <= A <= 999, converting Z*1000+A gives back (Z, A) |
| Zaid.ZaidTextAsInt | nuclide_data.py:260 | a ZAID string gives the same result as the integer it spells, so "08016" reads like 8016 |
| Zaid.ZaidSpacedSign | nuclide_data.py:260-263 | `zaid2za('- 92235') == (-92, 235)`: the space after the sign is skipped and Z keeps the sign |
| Zaid.ZaidFloatTruncates | nuclide_data.py:259-260 | a float ZAID ignores its fraction and reads like its truncation |
| Zaid.ZaidIntExamples | test_nuclide_data.py:86-93 | 92235 gives (92, 235) and 3006 gives (3, 6) |
| Zaid.ZaidTextExample | test_nuclide_data.py:86-93 | "08016" gives (8, 16) |
| Nuclides.CaseInsensitive | nuclide_data.py:377-380 | two spellings that differ only in letter case construct the same nuclide |
| Nuclides.FourSpellingsAgree | nuclide_data.py:394-409 | 'U235', 'U-235', '235U' and '235-U' construct the same nuclide, with Z from the symbol table and A from the digits |
| Nuclides.SpellingSymbolMass | nuclide_data.py:397-406 | an unhyphenated symbol-then-mass spelling reads its symbol and mass |
| Nuclides.SpellingSymbolDashMass | nuclide_data.py:395-406 | a hyphenated symbol-then-mass spelling reads its symbol and mass |
| Nuclides.SpellingMassSymbol | nuclide_data.py:397-409 | an unhyphenated mass-then-symbol spelling falls back to the swapped order and reads the same nuclide |
| Nuclides.SpellingMassDashSymbol | nuclide_data.py:395-409 | a hyphenated mass-then-symbol spelling falls back to the swapped order and reads the same nuclide |
| Nuclides.MetastableRule | nuclide_data.py:383-391 | a letter-initial spelling ending in M is metastable; without an energy argument its energy is the tabulated default for its repr, or infinity if none, otherwise the given energy |
| Nuclides.NonMetastableRule | nuclide_data.py:417-421 | any other spelling keeps the given energy and is metastable exactly when that energy is positive |
| Nuclides.AmericiumDefault | nuclide_data.py:425-428 | 'Am242m' without an energy gets the tabulated 0.0486 MeV and is metastable |
| Nuclides.ReprMarksExcited | nuclide_data.py:437-441 | the repr ends in 'm' exactly when E is not 0 |
| Nuclides.ReprReparses | nuclide_data.py:437-441 | constructing from any repr recovers Z, A and the element, and metastable exactly when the repr carries the 'm' |
| Nuclides.ReprRoundTrip | nuclide_data.py:437-441 | constructing from a ground state's repr gives the same nuclide back |
| Nuclides.LessTrichotomy | nuclide_data.py:443-457 | `__lt__` on (Z, A, E) is irreflexive and asymmetric, and any two nuclides are ordered one way or have the same key |
| Nuclides.LessTransitive | nuclide_data.py:456-457 | `__lt__` is transitive |
| Nuclides.EqualMeansSameZA | nuclide_data.py:451-453 | `__eq__` implies equal Z and A, and identical keys imply `__eq__` |
| Nuclides.EqualIsNotAnEquivalence | nuclide_data.py:451-457 | closeness of E is relative to the second operand, so `__eq__` is not symmetric and two nuclides can be both equal and ordered |
| WalletCards.FloatOf | nuclide_data.py:146 | `float(text)` succeeds exactly when the text parses, else raises `ValueError` |
| WalletCards.DoIfPresent | nuclide_data.py:106-111 | blank text gives the default; other text is passed stripped to the function |
| WalletCards.DoIfPresentStripped | nuclide_data.py:106-111 | stripping the text first changes nothing |
| WalletCards.ProcessBranch | nuclide_data.py:113-117 | the branch fraction is the parsed percentage over 100, or None when the text does not parse |
| WalletCards.NndcAbundance | nuclide_data.py:101-104 | the abundance text splits at '%' into exactly a float and an integer, which are the value read, else `ValueError` |
| WalletCards.ProcessAbundance | nuclide_data.py:119-123 | text starting with '100' is an abundance of exactly 1, otherwise the '%' form is read |
| WalletCards.AbundanceField | nuclide_data.py:133 | blank abundance columns give 0 and a '100...' entry gives 1 |
| WalletCards.ExcitationField | nuclide_data.py:138 | blank excitation columns give 0, otherwise the float of the stripped text |
| WalletCards.DecayModeField | nuclide_data.py:140 | the decay mode is None exactly when its columns are blank, otherwise the stripped text |
| WalletCards.BranchField | nuclide_data.py:141 | the branch fraction never raises and is present exactly when its columns hold a float |
| WalletCards.QValueField | nuclide_data.py:142 | blank Q-value columns give None, otherwise the float of the stripped text |
| WalletCards.ParseHead | nuclide_data.py:127-131 | A from columns 1-3, Z from 6-8, the title-cased symbol from 10-11 and the mass excess from 97-112, or `ValueError` |
| WalletCards.ParseTail | nuclide_data.py:132-146 | the flags are true exactly for 'M' in column 4, 'S' in column 114 and a 'STABLE' half-life text, plus every optional field |
| WalletCards.ParseWalletLine | nuclide_data.py:125-148 | a read line's fields come from their columns; `IndexError` happens exactly when the head reads and the line ends before column 114 |
| WalletCards.AbundanceFieldOk | nuclide_data.py:119-133 | the abundance column reads exactly when it is blank, starts with '100' or holds the '%' form |
| WalletCards.OptionalFieldsOk | nuclide_data.py:138-142 | the excitation and Q-value columns read exactly when blank or a float |
| WalletCards.ParseTailOk | nuclide_data.py:132-146 | the tail reads exactly when every field it converts reads |
| WalletCards.ParseWalletLineOk | nuclide_data.py:125-148 | a line reads exactly when it is long enough and every converted column reads |
| WalletCards.WalletLineDefaults | nuclide_data.py:133-142 | blank optional columns give their defaults and an abundance starting with '100' gives 1 |
| WalletCards.HeadAgree | nuclide_data.py:127-131 | two lines that agree on the columns read give the same head |
| WalletCards.FieldsAgree | nuclide_data.py:133-142 | two lines that agree on the columns read give the same optional fields |
| WalletCards.TailAgree | nuclide_data.py:132-146 | two lines that agree on the columns read give the same tail |
| WalletCards.UnusedColumnsIgnored | nuclide_data.py:125-148 | lines that differ only in columns the reader never looks at parse the same |
| MasterIndex.MasterFromLines | nuclide_data.py:156-203 | the index is built exactly when every wallet line parses, and it is the loop's index over the parsed lines in file order |
| MasterIndex.MasterKeys | nuclide_data.py:156-203 | the index built from the file has an entry for exactly the (Z, A) pairs its lines name |
| MasterIndex.AddRecordEffect | nuclide_data.py:172-203 | one record touches only its own (Z, A), E and decay mode, keeps an existing isomer's facts and creates a missing isomer from itself |
| MasterIndex.BuildKeys | nuclide_data.py:171-177 | there is a (Z, A) entry exactly when some record names that Z and A |
| MasterIndex.BuildStates | nuclide_data.py:179-184 | (Z, A) holds an isomer at E exactly when some record names (Z, A, E), so there is one entry per state |
| MasterIndex.BuildFirstFacts | nuclide_data.py:182-198 | an isomer's non-decay fields are those of the first record naming its state |
| MasterIndex.BuildModes | nuclide_data.py:200-203 | an isomer lists a decay mode exactly when some record of that state gives it |
| MasterIndex.BuildLastMode | nuclide_data.py:200-203 | a decay mode keeps the branch and Q-value of the last record giving it, so later duplicates overwrite |
| MasterIndex.IsotopesKeys | nuclide_data.py:243-247 | `isotopes` has a list for exactly the Z of some key |
| MasterIndex.IsotopesMembers | nuclide_data.py:243-251 | the list for Z holds exactly the A with (Z, A) a key |
| MasterIndex.IsotopesAscending | nuclide_data.py:249-251 | each list is strictly ascending, so it has no duplicates |
| MasterIndex.IsotopesOfIndex | nuclide_data.py:243-251 | built over the master index's keys, `isotopes[Z]` is strictly ascending and holds exactly the A some record gives with Z |
| MasterIndex.Isomers | nuclide_data.py:275-283 | `isomers(Z, A)` raises `KeyError` exactly for an absent (Z, A); otherwise it gives every state's energy once, strictly ascending |
| DecayModes.ExpandToken | main.py:173-176 | a token in the table becomes its full name and any other is kept verbatim |
| DecayModes.ExpandTokens | main.py:169-176 | tokens are expanded one by one, in order |
| DecayModes.ExpandDecayMode | main.py:133-135 | a missing, blank or 'nan' mode expands to 'Stable' |
| DecayModes.ExpandDecayModeShape | main.py:137-184 | other text expands to the expanded tokens of the text without its markers, followed by the marker labels in table order; the suffix appears exactly when a marker occurred |
| DecayModes.MarkersTaken | main.py:144-161 | the six marker tests collect the labels of exactly the markers present, in the fixed table order, and remove every marker while keeping every other character |
| DecayModes.TakeMarkersInvariant | main.py:144-161 | the tests from the k-th on, on the text with the first k markers removed, add the labels of the remaining markers present |
| DecayModes.PresentLabelsExact | main.py:144-161 | no label is collected exactly when no marker occurs |
| DecayModes.NoLabelsNoMarkers | main.py:144-182 | the label list is empty exactly when the text holds no marker |
| DecayModes.LabelsIgnoreOrder | main.py:144-161 | the labels depend only on which markers occur, not on their positions or order |
| DecayModes.LabelsOnce | main.py:144-161 | every label collected belongs to a marker and none is collected twice |
| DecayModes.LabelsDistinct | main.py:145-160 | the six labels are distinct |
| DecayModes.WithoutMembers | main.py:146-161 | removing markers keeps exactly the characters that are not removed markers |
| DecayModes.Pieces | main.py:166 | splitting at separators gives at least one piece, none holding a separator |
| DecayModes.Tokens | main.py:166-172 | tokens are non-empty and hold no comma or whitespace |
| DecayModes.TokensKeepText | main.py:166-172 | the tokens together hold every non-separator character of the text, in order |
| DecayModes.TokensOfSpaced | main.py:166-172 | splitting words joined by single spaces gives the words back |
| DecayModes.SeparatorThen | main.py:166-172 | a comma or whitespace character ends the piece before it |
| DecayModes.GapThen | main.py:166-172 | a run of commas and whitespace in front of the text adds no token |
| DecayModes.WordGapThen | main.py:166-172 | a word followed by a non-empty run of separators gives exactly that word as the next token |
| DecayModes.WordAlone | main.py:166-172 | a separator-free word on its own is a single token |
| DecayModes.TokensOfLaid | main.py:166-172 | words, each followed by a run of separators (non-empty between words), split back into exactly those words |
| DecayModes.TokensOfSeparated | main.py:166-172 | words with any runs of commas and whitespace before, between and after them split back into exactly those words, so tokens are the maximal separator-free runs |
| DecayModes.CommaAndSpaces | main.py:166-172 | "B-,  EC" splits into "B-" and "EC" |
| DecayModes.NoMarkersNoFlags | main.py:178-184 | text without markers gets no parenthesised suffix |
| DecayModes.QuestionMarkAlone | main.py:144-182 | '?' expands to 'Stable (uncertain)' |
| DecayModes.NothingLeft | main.py:178 | when no token remains the modes read 'Stable' |
| DecayModes.TwoModes | main.py:166-178 | 'EC B+' expands to 'Electron capture, Beta plus decay' |
| ColumnLayout.FieldsOf | main.py:70-108 | each column's text is the part of the line inside its span |
| ColumnLayout.Fields | main.py:70-108 | a wallet-card line has one text per column name |
| ColumnLayout.ColspecsTile | main.py:70-86 | the spans start at column 0, each ends where the next begins, none is empty and the last is open-ended |
| ColumnLayout.ColumnsPaired | main.py:70-105 | there are 15 spans and 15 names |
| ColumnLayout.NamesDistinct | main.py:89-105 | the column names are distinct |
| ColumnLayout.TiledFields | main.py:70-86 | for tiling spans, the fields from the k-th on put back together are the line from that span's start |
| ColumnLayout.FieldsCoverLine | main.py:70-86 | the fifteen fields put back together are the whole line, so every character lands in exactly one column |
| ColumnLayout.DecayModeColumn | main.py:76 | the decay_mode column is characters 32 to 34 |
| NistRecords.RunConcat | isotope_data.py:42-47 | chunking two stretches of lines in turn is chunking them together |
| NistRecords.RunCounts | isotope_data.py:42-47 | every '\n' line closes exactly one record, and closed records never change |
| NistRecords.RecordCount | isotope_data.py:40-47 | there are as many records as blank lines |
| NistRecords.TrailingLinesDropped | isotope_data.py:42-47 | lines after the last blank line never form a record |
| NistRecords.UnterminatedRecordDropped | isotope_data.py:40-47 | appending lines without a blank line adds no record |
| NistRecords.CleanLineKept | isotope_data.py:43-47 | a record line without trailing whitespace is kept as written |
| NistRecords.RunRender | isotope_data.py:42-47 | chunking a file written from records closes exactly those records |
| NistRecords.ChunksOfRender | isotope_data.py:40-47 | a file written from records, each followed by a blank line, reads back as those records |
| NistRecords.BlankLinesMakeEmptyRecords | isotope_data.py:43-45 | two blank lines in a row make two empty records |
| NistRecords.SplitLine | isotope_data.py:17-23 | a line without exactly one '=' raises `ValueError` when unpacked |
| NistRecords.SplitLineOk | isotope_data.py:17-23 | a line splits exactly when it holds one '=' |
| NistRecords.SplitLineRoundTrip | isotope_data.py:17-18 | a key and value written around one '=' come back stripped |
| NistRecords.Classify | isotope_data.py:24-32 | classifying raises only `ValueError` |
| NistRecords.ClassifyKinds | isotope_data.py:24-32 | a value raises `ValueError` exactly when it holds '.' and `ufloat` rejects it, is an uncertain number exactly when it holds '.' and `ufloat` reads it, an int exactly when it has no '.' and reads as one, and then that int, otherwise the text itself |
| NistRecords.ClassifyInteger | isotope_data.py:29-30 | a written integer is classified as that integer |
| NistRecords.ClassifyHash | isotope_data.py:24-27 | exactly one trailing '#' is dropped from an uncertain number before `ufloat` reads it |
| NistRecords.ClassifySpacedSign | isotope_data.py:28-32 | the value `- 5` is stored as the int -5, not as text |
| NistRecords.ClassifyText | isotope_data.py:28-32 | text that is neither a number nor holds '.' stays text |
| NistRecords.ParseLine | isotope_data.py:22-32 | a line parses exactly when it splits and its value classifies, else `ValueError` |
| NistRecords.ParseChunk | isotope_data.py:20-34 | a record parses exactly when every line splits and every dotted value is read by `ufloat`, else `ValueError` |
| NistRecords.StoreKeys | isotope_data.py:21-32 | the dictionary's keys are exactly the keys of the lines |
| NistRecords.StoreValues | isotope_data.py:21-32 | each key holds the value of the last entry with that key |
| NistRecords.ParseChunkContents | isotope_data.py:20-34 | a parsed record's keys are its lines' keys, each with the classified value of the last line with that key |
| NistRecords.Group | isotope_data.py:55-62 | grouping raises only `KeyError` |
| NistRecords.GroupUpTo | isotope_data.py:55-62 | the loop after n records raises only `KeyError` |
| NistRecords.GroupUpToOk | isotope_data.py:55-62 | the first n records group exactly when each has an atomic number |
| NistRecords.GroupOk | isotope_data.py:55-62 | grouping fails exactly when some record has no 'Atomic Number' |
| NistRecords.GroupUpToKeys | isotope_data.py:55-62 | after n records there is a list for exactly the atomic numbers seen |
| NistRecords.GroupUpToLists | isotope_data.py:55-62 | after n records each list is that element's records in input order |
| NistRecords.GroupContents | isotope_data.py:55-62 | there is a list for exactly the atomic numbers that occur, each holding that element's records in input order |
| NistRecords.OfElementExactly | isotope_data.py:55-62 | an element's list holds every record of that element and no other, so each record is in exactly one list |
| NistRecords.PerElement | isotope_data.py:40-62 | the pipeline succeeds only when every record parses |
| IsotopeWallet.DoIfPresentOrNone | isotope_data.py:71-76 | blank text gives None; other text is passed stripped to the function, whose result or exception is passed on |
| IsotopeWallet.DoIfPresentAgrees | isotope_data.py:71-76 | the two files' `do_if_present` agree when the default is None |
| IsotopeWallet.CharAt | isotope_data.py:98 | indexing a line past its end raises `IndexError` |
| IsotopeWallet.IntOf | isotope_data.py:81-83 | `int(text)` succeeds exactly when the text reads as an integer, else `ValueError` |
| IsotopeWallet.FloatsOf | isotope_data.py:68 | `map(float, parts)` succeeds exactly when every part parses |
| IsotopeWallet.NndcUnc | isotope_data.py:67-69 | the text must split at the delimiter into exactly two floats, which become the value and its uncertainty |
| IsotopeWallet.AbundanceOf | isotope_data.py:95 | the abundance and its uncertainty are both the percentages over 100 |
| IsotopeWallet.Fraction | isotope_data.py:88 | the branch fraction is the percentage over 100 |
| IsotopeWallet.ReadIdentity | isotope_data.py:81-85 | A from columns 1-3, the isomer flag from column 4 and Z from columns 6-8; `IndexError` only for a line ending before column 4 |
| IsotopeWallet.ReadDecay | isotope_data.py:86-93 | the decay mode is None exactly when blank; the branch fraction is `float()` of the stripped text over 100 and the excitation energy its `float()`, each None exactly when blank; the Q-value is always read |
| IsotopeWallet.ReadMass | isotope_data.py:95-99 | the abundance is None exactly when blank and otherwise `nndc_unc` of the stripped text over 100; the atomic mass is the two mass columns read by `float()`; the systematics flag is 'S' in column 114; `IndexError` only for a line ending before column 114 whose mass columns both read |
| IsotopeWallet.ReadIsotopeLine | isotope_data.py:79-99 | the body's dictionary is built exactly when every statement succeeds, and raises `IndexError` only for a short line |
| IsotopeWallet.ParseIsotopeLineAsWritten | isotope_data.py:79-99 | the function as written does the same work, raises the same exceptions and then returns None |
| IsotopeWallet.ParseIsotopeLine | isotope_data.py:79-99 | the corrected function returns the dictionary the body builds |
| IsotopeWallet.JoinTerminated | isotope_data.py:107 | newline-terminated lines are the lines joined by '\n' with an empty last piece |
| IsotopeWallet.WalletLinesOfFile | isotope_data.py:107 | splitting a file of newline-terminated lines and dropping the last piece gives the lines back |
| IsotopeWallet.ProcessedListAllNone | isotope_data.py:109-111 | the processed list, when built, holds one None per line |
| IsotopeWallet.CorrectedListKeepsRecords | isotope_data.py:109-111 | with the return added, the list holds each line's dictionary |
| IsotopeWallet.ReturnMissing | isotope_data.py:79-99 | a concrete line that reads with any `float()` that reads digit strings: the corrected function returns its dictionary while the function as written returns None |
| Simulation.Cap | nucleon_simulation.py:48-54 | the cap changes only the velocity |
| Simulation.CapDirection | nucleon_simulation.py:48-54 | the cap scales both components by the same factor in (0, 1], so the direction is kept |
| Simulation.CapKeepsSlow | nucleon_simulation.py:51 | a velocity at or below the cap is unchanged |
| Simulation.CapScaleFast | nucleon_simulation.py:51-54 | a faster velocity is scaled by MAX_VELOCITY over the speed |
| Simulation.CapFast | nucleon_simulation.py:51-54 | a faster velocity ends at exactly MAX_VELOCITY |
| Simulation.CapBounds | nucleon_simulation.py:48-54 | after the cap the speed is at most MAX_VELOCITY |
| Simulation.SpeedAtMostCap | nucleon_simulation.py:50-51 | the speed is within the cap exactly when the squared speed is within the cap squared |
| Simulation.Move | nucleon_simulation.py:56-67 | move caps first, shifts the position by exactly the capped velocity, and negates a component exactly when the new coordinate is outside [0, bound] (a zero component is both kept and negated); kind and neighbour count are kept |
| Simulation.MoveWithinCap | nucleon_simulation.py:56-67 | after a move the speed is at most MAX_VELOCITY, bounce included |
| Simulation.SpeedOfFlipped | nucleon_simulation.py:64-67 | negating velocity components keeps the speed |
| Simulation.MoveCanLeaveBox | nucleon_simulation.py:60-67 | the position is not clamped: a nucleon near the wall ends outside the box with its velocity reversed |
| Simulation.Distance | nucleon_simulation.py:94 | the clamped distance is at least 1e-5 |
| Simulation.Push | nucleon_simulation.py:105-112 | a push changes only the two velocities, equal and opposite, so their sum is unchanged |
| Simulation.Repulsion | nucleon_simulation.py:73-89 | repulsion changes nothing unless both are protons closer than 50, changes only velocities, and keeps the pair's velocity sum |
| Simulation.RepulsionImpulseDirection | nucleon_simulation.py:79-83 | the impulse on the second proton points away from the first, never toward it |
| Simulation.InverseSquareAlong | nucleon_simulation.py:81-83 | the inverse-square impulse has a non-negative component along the separation, positive when the separation is non-zero |
| Simulation.RepulsionPushesApart | nucleon_simulation.py:73-89 | the first nucleon's velocity change never points toward the second, and two close protons at distinct places both change velocity |
| Simulation.StrongMagnitudeSign | nucleon_simulation.py:98-103 | the strong force is negative below 10, positive from 10 to 20 and zero from 20 on |
| Simulation.StrongForce | nucleon_simulation.py:91-125 | the strong force changes nothing at distance 30 or more, changes only velocities, and keeps the pair's velocity sum through impulse and damping |
| Simulation.StrongImpulseDirection | nucleon_simulation.py:98-112 | below 10 the impulse on the first nucleon points away from the second, from 10 to 20 toward it, and from 20 on there is none |
| Simulation.DampingInOuterBand | nucleon_simulation.py:100-125 | from 20 to 30 the strong force is the damping alone, and it draws the first nucleon toward the second |
| Simulation.RelativeSpeedSign | nucleon_simulation.py:115-117 | the relative speed is non-negative |
| Simulation.CountNear | nucleon_simulation.py:128-136 | the count over the first k nucleons never exceeds k, nor k minus one once the nucleon itself is among them |
| Simulation.Neighbors | nucleon_simulation.py:128-136 | a nucleon has at most n-1 neighbours |
| Simulation.CountNearIsSize | nucleon_simulation.py:128-136 | the loop's count is the number of other nucleons among the first k at unclamped distance below 30 |
| Simulation.NeighborsExactly | nucleon_simulation.py:128-136 | the neighbour count is the number of other nucleons at unclamped distance below 30 |
| Simulation.Interaction | nucleon_simulation.py:176-179 | one ordered pair's repulsion then strong force keeps the list's length and kinds |
| Simulation.Apply | nucleon_simulation.py:174-188 | any step of a frame keeps the list's length and kinds |
| Simulation.TickFollowsSchedule | nucleon_simulation.py:174-188 | one frame performs exactly the events of the schedule, in order |
| Simulation.RunKeepsKinds | nucleon_simulation.py:174-188 | any run of steps keeps every nucleon's kind |
| Simulation.TickKeepsKinds | nucleon_simulation.py:174-188 | a frame keeps the list's length and every nucleon's kind |
| Simulation.FramesKeepKinds | nucleon_simulation.py:155-188 | any number of frames keeps every nucleon's kind |
| Simulation.Initial | nucleon_simulation.py:142-150 | the layout has 12 + 6 nucleons |
| Simulation.InitialKinds | nucleon_simulation.py:142-150 | the layout has 12 protons and 6 neutrons |
| Simulation.InitialInBox | nucleon_simulation.py:143-150 | every nucleon starts strictly inside the 200 by 200 box |
| Simulation.InitialLayout | nucleon_simulation.py:142-150 | the start has 12 protons and 6 neutrons, all strictly inside the box, each neutron on the spot of the proton with the same index |
| Simulation.CompositionFixed | nucleon_simulation.py:138-188 | after any number of frames there are still 12 protons and 6 neutrons, each nucleon keeping its kind |
| Simulation.CountKindConcat | nucleon_simulation.py:142-150 | counting a kind over two lists adds up |
| Frame.RunConcat | nucleon_simulation.py:174-188 | running two stretches of events in turn is running them together |
| Frame.PairsCount | nucleon_simulation.py:176-177 | nucleon i's inner loop interacts with each other index exactly once and never with itself |
| Frame.PairsLength | nucleon_simulation.py:176-177 | the inner loop has n-1 interactions |
| Frame.BlockCount | nucleon_simulation.py:174-188 | nucleon i's turn counts its neighbours, interacts with every j != i and moves it, each exactly once |
| Frame.ScheduleOnce | nucleon_simulation.py:174-188 | in a frame each ordered pair i != j interacts exactly once, and each nucleon is counted and moved exactly once |
| Frame.BlocksLength | nucleon_simulation.py:174-188 | a frame has n(n+1) events |
| Frame.BlockShape | nucleon_simulation.py:174-188 | a turn counts neighbours first, moves the nucleon last, and interacts in between |
| Frame.SchedulePlacement | nucleon_simulation.py:174-188 | nucleon i's turn occupies positions i(n+1) to i(n+1)+n: neighbours first, its own interactions, then its move, right after its inner loop |
| Frame.InnerLoopRuns | nucleon_simulation.py:176-179 | the inner loop performs the pair events in order |
| Frame.OuterLoopRuns | nucleon_simulation.py:174-188 | the outer loop performs the turns in order |
| Frame.LoopsFollowSchedule | nucleon_simulation.py:174-188 | the nested loops perform exactly the schedule |
| Text.Strip | nuclide_data.py:107 | `strip()` is empty exactly for blank text, is never longer than the text, and otherwise starts and ends with a non-space |
| Text.StripSurrounded | nuclide_data.py:107 | stripping removes exactly the whitespace around a text that has none at its ends |
| Text.StripIdempotent | nuclide_data.py:107 | stripping twice is stripping once |
| Text.Split | isotope_data.py:18 | `split(c)` gives one piece more than there are c's, none holding c, and joining them gives the text back |
| Text.SplitJoin | isotope_data.py:18 | splitting a join of pieces without the separator gives the pieces back |
| Text.Upper | nuclide_data.py:380 | `upper()` maps each character in place |
| Text.TitleOfUpperWord | nuclide_data.py:404-409 | `title()` of an upper-cased symbol gives the symbol back |
| Text.Remove | main.py:146 | `replace(c, '')` removes every c and keeps every other character as often as it occurs |
| Text.RemoveConcat | main.py:146 | removing from joined texts is removing from each, so the kept characters stay in order |
| Integers.ParseIntToString | nuclide_data.py:260-263 | `int(str(n)) == n` |
| Integers.ParseSignSpaced | nuclide_data.py:261-262 | `int()` skips whitespace between the sign and the digits: a sign, any whitespace and digits read as the signed value of the digits |
| Integers.MinusSpaceFive | isotope_data.py:30 | `int('- 5') == -5` |
| Integers.NatToStringThousands | nuclide_data.py:260-263 | the text of a number of at least 1000 is the text of its thousands followed by three digits |
| Sorting.SortPermutes | nuclide_data.py:251 | sorting keeps the same elements with the same multiplicities |
| Sorting.SortAscending | nuclide_data.py:251 | the sorted list is ascending |
| Sorting.SortDistinct | nuclide_data.py:251 | sorting distinct elements gives a strictly ascending list with the same elements |
| Outcomes.ParseEach | isotope_data.py:109-111 | a loop that parses every item succeeds exactly when each item parses, keeping order and length |

## Left out

- File, gzip and data-file reading, and module-level loading. Chunking and parsing are modelled over a given sequence of lines.
- The `nist_nuclides`, `z2sym`, `sym2z` and `atomic_weights` tables built from the NIST file. The symbol tables are a parameter.
- The weight lookup: `return_nominal_value`, `weight`, `nuc`, the `weight` entry of an isomer, and the constructor's `self.weight` with its warning. These depend on the loaded data.
- `isomer['lambda']`. It is `np.log(2) / half-life`, floating-point arithmetic on a data value.
- `uncertainties.ufloat` and its arithmetic. In `isotope_data.py`, a ufloat of a text is kept as that text, and whether `ufloat` reads the text is a parameter. A ufloat of two texts is their two `float()` values; the package's own checks of those values are not modelled. Its percentage divisions are modelled as real division.
- `np.allclose` uses floats. `Nuclides.Equal` states its formula over reals.
- `__hash__`. It is keyed on exact E while `__eq__` uses closeness, so no claim connects them.
- Objects with attributes `Z`/`A`/`E` and dictionaries with keys `'Z'`/`'A'`/`'E'` are one case, `Fields`. Any other value, such as a list of length 4, is `OtherId`, which fails as the constructor does when reading `self.Z`.
- pandas: `read_fwf` with its comment and blank-line handling, `to_numeric`, CSV output and all printing in `main()`. Only the column layout and `expand_decay_mode` are modelled.
- `pd.isna` is modelled as the value `None`.
- DecayModes: only ' \t\n\r\x0b\x0c' count as whitespace, both for `str.strip` and for `\s`. In Python 3, which `main.py` targets, both also treat '\x1c' to '\x1f' and non-ASCII spaces as whitespace; those characters are not modelled.
- pygame: window setup, drawing, the event loop, frame timing and the arrow keys' ×1.1 / ×0.9 velocity scaling.
- The `isfinite` reset in `move`. Reals are always finite.
- `NUCLEON_RADIUS` and `STRONG_FORCE_CUTOFF`. The physics never reads them.
- Exact force magnitudes and float rounding. Only signs, directions, conservation and the cap are stated.
- `random.uniform` velocities. They are the parameter of `Simulation.Initial`.
- Python dictionary iteration order, for `isotopes` and `isomers`. It is the parameter `order`, required to list the keys once each.
- Simulation.Apply: an event naming an index outside the list changes nothing. The frame schedule never produces one.
- Simulation.Frames: the main loop as a number of frames. It stops only on a quit event, which is not modelled.
- NistRecords.PerElement: states only that success needs every record to parse. What grouping does is stated by `NistRecords.GroupOk` and `NistRecords.GroupContents`.
- WalletCards.NndcAbundance: assumes `ufloat` reads the text `"{0}({1})".format(float(a), int(b))`. It is kept as the float and the int it is made from. Python's formatting of a float is not modelled, so no text that `ufloat` might reject is modelled either.

## Findings

| source | as written | input that shows it | evidently intended | confidence | as-written member | corrected member |
|---|---|---|---|---|---|---|
| isotope_data.py:79-99 | `parse_one_wallet_line` fills its dictionary and ends without `return d`, so it returns None, and `wallet_isotope_processed_list` (lines 109-111) holds only None | a line with digits in every column except a `%` at column 85 reads completely, yet the call returns None | return the dictionary, as `nuclide_data.py`'s reader does at line 148 | high; not executed | IsotopeWallet.ParseIsotopeLineAsWritten, IsotopeWallet.ReturnMissing | IsotopeWallet.ParseIsotopeLine, IsotopeWallet.CorrectedListKeepsRecords |
