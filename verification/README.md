# sort_pictures in Dafny

`sort_pictures.py` walks a source folder and copies every picture or video it finds into `target/YYYY/MM/DD/`. The folder comes from the file's modification date. A name that is already taken in that folder gets the form `base_1.ext`, `base_2.ext`, and so on. For every other file it prints the lower-cased extension, once per distinct extension.

This project models the program once the filesystem is treated as data:

- A destination folder is a map from entry name to what the entry holds. For the copies made here, that is the source file's path.
- The destination tree maps a `DateDir` (the year, month and day folder names) to such a folder.
- The walk is a sequence of `SourceFile`s, each with its path, name and modification date.
- Printing is modelled as the sequence of printed extensions.

Modules:

- `Text`: ASCII `str.lower`, `endswith`, `rfind`, `str(int)` and zero-padded decimals.
- `Paths`: `os.path.splitext` as the POSIX path module defines it.
- `Classify`: the twelve supported suffixes, the case-insensitive suffix test, and the extension reported for a file that is not copied.
- `UniqueName`: `get_unique_filename`. It is a specification function (`UniqueFilename`, built on `LeastFreeSuffix`) plus the probing loop (`GetUniqueFilename`), which is proved equal to it. Termination rests on a pigeonhole lemma (`SuffixBound`): distinct counters give distinct names, so at most `|existing|` probes can be taken.
- `Dates`: the `%Y/%m/%d` folder names.
- `Report`: the deduplicating notice loop, over what the walk observes of each file (whether it is copied, and its reported extension).
- `Arrange`:
  - The specification functions `PlaceFile` (one `copy_picture`), `Arranged` (the copies made by the walk) and `Reported` (the printed notices), with their lemmas.
  - The class `Destination`, whose methods change the tree in place. Each method is proved to produce exactly the specification function's result.

## Model

| member | source | states |
|---|---|---|
| Text.Lower | sort_pictures.py:59 | `name.lower()` keeps the length of the name |
| Text.LowerAt | sort_pictures.py:59 | each character of the lower-cased name is the lower-cased character at the same place |
| Text.LowerIdempotent | sort_pictures.py:59 | lower-casing twice is the same as lower-casing once |
| Text.LastIndex | sort_pictures.py:18 | the index of the last occurrence of a character, or -1; no occurrence lies after it |
| Text.NatToString | sort_pictures.py:22 | the counter's decimal text is non-empty digits without a leading zero and reads back as the counter |
| Text.PadDecimal | sort_pictures.py:33-35 | a number written in exactly `width` digits reads back as that number |
| Paths.SplitExtSpec | sort_pictures.py:18 | `root + ext` is the name; `ext` is empty or a dot followed by no dot or separator; `ext` is non-empty exactly when the final component has a dot preceded there by a non-dot |
| Paths.DotFileHasNoExtension | sort_pictures.py:18 | a name with one leading dot (such as `.bashrc`) has an empty extension |
| Paths.SplitAtLastDot | sort_pictures.py:18 | only the last dot separates: `archive.tar.gz` gives `archive.tar` and `.gz` |
| Classify.EndsWithAnyIff | sort_pictures.py:59 | `endswith` on a tuple holds exactly when one of the suffixes ends the string |
| Classify.IsSupportedIff | sort_pictures.py:54-59 | a file is copied exactly when its lower-cased name ends with one of the twelve listed suffixes |
| Classify.ClassificationIgnoresCase | sort_pictures.py:59 | a name and its lower-cased form are classified alike |
| Classify.UpperCaseJpegIsSupported | sort_pictures.py:54-59 | `IMG_1.JPG` is copied |
| Classify.TiffIsUnsupported | sort_pictures.py:54-59 | `file.tiff` is not copied |
| Classify.ReportedExtensionShape | sort_pictures.py:64 | the reported extension is empty or starts with a dot, ends the lower-cased name, and is non-empty exactly when the name has an extension |
| Classify.SupportedIffExtensionListed | sort_pictures.py:54-64 | for a name with an extension, it is copied exactly when its lower-cased extension is one of the listed suffixes |
| Classify.UnsupportedReportsUnlisted | sort_pictures.py:59-64 | the extension reported for a file that is not copied is never a listed suffix |
| Classify.DotFileNamedLikeExtension | sort_pictures.py:59-64 | a file named `.jpg` is copied although `splitext` gives it no extension |
| Classify.SupportedBySuffix | sort_pictures.py:59 | a name whose last characters, lower-cased, spell a listed suffix is copied |
| UniqueName.CandidateInjective | sort_pictures.py:22 | distinct counters give distinct probe names |
| UniqueName.CandidateIsNotOriginal | sort_pictures.py:18-22 | no probe name equals the name it was derived from |
| UniqueName.SuffixBound | sort_pictures.py:21-23 | if probes 1..n are all taken, then n is at most the number of entries |
| UniqueName.ProbeBound | sort_pictures.py:20-23 | when the name itself is taken too, n + 1 is at most the number of entries |
| UniqueName.LeastFreeSuffix | sort_pictures.py:19-23 | the smallest counter from k on whose probe is free; every smaller counter's probe is taken; it is at most the number of entries plus one |
| UniqueName.UniqueFilename | sort_pictures.py:13-24 | the result is never an existing entry, and a free name is returned unchanged |
| UniqueName.UniqueFilenameIsLeastProbe | sort_pictures.py:18-23 | a taken name becomes `base_k.ext` with `base + ext` the name, k the least counter >= 1 whose probe is free, and k at most the number of entries |
| UniqueName.RepeatedNameGetsLargerSuffix | sort_pictures.py:18-23 | resolving the same name again in any later folder that keeps the old entries and holds the first result gives a strictly larger counter, so no counter is reused |
| UniqueName.SecondCopyGetsSuffixOne | sort_pictures.py:18-24 | `a.jpg` in a folder holding `a.jpg` and `b.png` becomes `a_1.jpg` |
| UniqueName.GetUniqueFilename | sort_pictures.py:13-24 | the probing loop terminates and returns exactly the name `UniqueFilename` specifies |
| Dates.DirKey | sort_pictures.py:32-38 | the folder names have 4, 2 and 2 digits and read back as the date's year, month and day |
| Dates.DirKeyInjective | sort_pictures.py:32-38 | two dates share a folder exactly when they are the same date |
| Dates.DirKeyExample | sort_pictures.py:33-35 | 4 May 2023 goes to `2023/05/04` |
| Arrange.WithDirectory | sort_pictures.py:6-11 | after creating the folder it exists; an existing folder is unchanged; a new one is empty; no other folder changes |
| Arrange.PlaceFileAddsOneEntry | sort_pictures.py:26-45 | placing a file adds one entry, under a name its dated folder lacked, holding the copy; no other folder changes and every existing entry keeps its name and content |
| Arrange.PlaceFileAddsOnlyItsCopy | sort_pictures.py:38-45 | the only entry a placement adds is the file's copy, in its dated folder, under the name `UniqueFilename` picks there |
| Arrange.ArrangedSnoc | sort_pictures.py:57-61 | handling one more file places it when it is supported and leaves the tree unchanged otherwise |
| Arrange.ArrangedStepPreserves | sort_pictures.py:57-61 | handling one more file keeps every entry that was there |
| Arrange.ArrangedPreserves | sort_pictures.py:57-61 | the walk never removes or overwrites an entry of the destination tree |
| Arrange.ArrangedLastStep | sort_pictures.py:57-61 | handling one more file keeps every entry, and any entry it adds is the copy of that file, which is supported, in its dated folder |
| Arrange.NewCopyKept | sort_pictures.py:57-61 | a copy made earlier in the walk survives every later step |
| Arrange.PlaceFileCopiesAsNew | sort_pictures.py:39-45 | placing a supported file creates a new entry holding its copy in its dated folder |
| Arrange.ArrangedCopiesEverySupported | sort_pictures.py:57-61 | every supported file of the walk ends up as a new entry in its dated folder holding its copy |
| Arrange.LastStepKeepsCopy | sort_pictures.py:57-61 | a copy made before the last step holds the same content before and after it |
| Arrange.LastStepAddsOneEntry | sort_pictures.py:57-61 | handling one file adds at most one new entry to the whole tree |
| Arrange.EarlierCopyIsNotLast | sort_pictures.py:57-61 | when the walked paths are distinct, no copy made before the last step holds the last file's path |
| Arrange.ArrangedCopiesAtMostOnce | sort_pictures.py:57-61 | when the walked paths are distinct (as `os.walk` yields each file once), two new entries holding the same content are the same entry |
| Arrange.ArrangedCopiesEachSupportedOnce | sort_pictures.py:57-61 | when the walked paths are distinct, each supported file is under exactly one new entry, and that entry is in its dated folder |
| Arrange.ArrangedAddsOnlyCopies | sort_pictures.py:57-62 | every new entry of the tree holds the copy of a supported file, in that file's dated folder: unsupported files are never copied |
| Arrange.OfKindSnoc | sort_pictures.py:59 | one more file is kept exactly when it is of the kind asked for |
| Arrange.OfKindMembers | sort_pictures.py:59 | a file is among those kept for one kind exactly when it is walked and of that kind |
| Arrange.ArrangedIgnoresUnsupported | sort_pictures.py:59-62 | dropping every unsupported file from the walk gives the same destination tree |
| Report.NoticesSnoc | sort_pictures.py:62-67 | one more observation appends its extension exactly when the file is not copied and the extension was not printed yet |
| Report.NoticesDistinct | sort_pictures.py:55-67 | the printed set keeps any extension from being printed twice |
| Report.NoticesSound | sort_pictures.py:62-67 | each printed extension is that of an observed file that is not copied |
| Report.NoticesComplete | sort_pictures.py:62-67 | the extension of every file that is not copied is printed |
| Report.NoticesInOrder | sort_pictures.py:55-67 | the k-th notice is printed at the first file with that extension that is not copied, after exactly the k notices before it |
| Arrange.ReportedSnoc | sort_pictures.py:59-67 | handling one more file prints its lower-cased extension exactly when it is unsupported and that extension was not printed before; a supported file prints nothing |
| Arrange.ReportedDistinctAndSound | sort_pictures.py:55-67 | no extension is printed twice, and each printed one is the lower-cased extension of some unsupported file |
| Arrange.ReportedComplete | sort_pictures.py:62-67 | the extension of every unsupported file is printed |
| Arrange.ReportedInOrderOfFirstAppearance | sort_pictures.py:55-67 | the k-th notice is printed while handling the first unsupported file with that extension, after exactly the k notices before it |
| Arrange.ReportedIgnoresSupported | sort_pictures.py:59-67 | dropping every supported file from the walk prints the same notices |
| Arrange.Destination.CreateDirectoryStructure | sort_pictures.py:6-11 | the tree becomes the tree with the dated folder added if it was absent |
| Arrange.Destination.CopyPicture | sort_pictures.py:26-45 | the chosen name is what `UniqueFilename` gives for the dated folder and was not in it; the new tree is that folder with the copy added under that name |
| Arrange.Destination.HandleFile | sort_pictures.py:58-67 | one iteration: the tree and the printed notices become those of the files handled so far plus this one, and the set of printed extensions stays equal to the printed notices |
| Arrange.Destination.SearchAndArrange | sort_pictures.py:47-67 | after the walk the tree is `Arranged` of the files and the printed notices are `Reported` of the files |

## Left out

- Filesystem calls (`os.path.exists`, `os.makedirs`, `os.path.getmtime`, `shutil.copy2` and its copying of metadata) are modelled only through the name/content map of each dated folder. File contents are represented by the source path.
- UniqueName.UniqueFilename: `os.path.exists` is modelled as exact membership of the name among the folder's entries. Two cases fall outside the model. On a case-insensitive filesystem, `IMG.JPG` collides with an existing `img.jpg`; the model treats them as distinct names. A dangling symbolic link makes `exists` false, so the program reuses that name and writes through the link; the model would pick `base_1.ext` instead.
- `datetime.fromtimestamp` and the local time zone are left out: a file's modification date is given as year 1..9999, month 1..12 and day 1..31. This domain is larger than the real calendar (it admits 31 February); every property holds on it.
- The traversal order of `os.walk` is not modelled: the walk is given as a sequence of files, and every property holds for any order.
- `input`, the `__main__` block and the final completion message are left out. The unsupported-extension notices are modelled as the returned sequence of extensions.
- `os.path.join` is left out. The target folder is identified by its date key under one target root, and `os.makedirs` creating the year and month ancestors is implicit in that key.
- Text.Lower: only ASCII letters are lower-cased. Classification is unaffected, because the twelve suffixes are ASCII. The extension reported for a name with non-ASCII capitals can differ from Python's.
- Paths.SplitExtSpec: follows the POSIX path module (separator `/`). The Windows module, with `\` and drive letters, is left out.
- Dates.DirKey: `%Y` is taken as four zero-padded digits. Some C libraries do not pad years below 1000.
- Filesystem errors (permissions, a file vanishing during the walk, a regular file where a dated folder should be) and the resulting exceptions are left out.
- Arrange.Destination.CopyPicture: the race between the existence probes and the copy is not modelled, since the tree changes only through this program.
