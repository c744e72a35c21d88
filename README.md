# LocalImageReader core, in Dafny

LocalImageReader serves a local directory of images as a web gallery. This project models
the sequential logic under its web layer and proves what that logic promises:

- **Directory view** (`pc/core/core.go`): a file system rooted at a directory. It answers
  four queries about subpaths: stat, list, first-match among the children, and a
  breadth-first search with a FIFO queue for the first file whose name a predicate accepts.
  It also decides which names are images.
- **Listing** (`pc/main.go`): one record per entry of a directory listing, sorted stably by
  the "number-first" order on file names, then split into directory buttons and image URLs.
- **Thumbnail cache** (`pc/core/thumbnail.go`): a thumbnail that is present is served as is;
  otherwise it is generated (decode, make directories, create, encode) or the original is served.
- **WebP cache** (`pc/core/webp.go`): the same cache shape around the `cwebp` transcoder,
  including the argument vector it is given.

The disk is a finite tree, `map<Path, Node>`. A path is the sequence of its elements, so the
lexical cleaning done by `filepath.Join` and `filepath.Clean` is part of the representation.
A directory node lists its children as `os.ReadDir` and `ioutil.ReadDir` return them: sorted
by name, in `strings.Compare` order. `WellFormed` says four things: the root is a directory,
every listed child exists, every other node is listed by its parent, and every listing is
sorted. A write puts a new name at its sorted place in its parent's listing.

The read-only queries take the disk as a value. The loops of the source become methods
proved equal to specification functions:
- `GetDirContents`, `Find`, `IsImage`, the queue loop of `FindRecursive`, the record loop
  of `getWebData` and the partition loop of the `/fs` handler.
- The recursive finder is specified level by level (`BfsFiles`). The queue loop is proved
  to serve directories in that order, via the queue invariant `QueueAt`.

The caches change state, so they are methods on a `Host` object. It holds:
- the disk;
- the `inputCwebpFlags` package variable, which `toWebp` rewrites;
- logs of the calls made to the two outside collaborators, the image decoder and the
  transcoder.

`log.Fatal` in the error callbacks is modelled as the outcome `Halted`. The decoder reads
a size from the file's content. Whether encoding and transcoding succeed, and the scaled
height, are parameters.

Two collisions in the WebP cache's naming are behaviour of the code, proved as lemmas:
`Webp.WebpPathShared` shows that "a.png" and "a.jpg" share one WebP copy, and
`Webp.WebpMeetsThumbnail` shows that the WebP copy of "x/a.png" sits at the thumbnail path of
"x/a.webp".

Where the code and its description differ, the model follows the code:
- `getWebData` reads `fi.FileName` (`pc/main.go:155`), a field the `FileInfo` of
  `pc/core/core.go:149-153` does not declare. The model takes it to be the last element
  of the subpath.
- `FindRecursive` hands its predicate the entry's bare name (`f.Name()`), not a full
  path (`pc/core/core.go:135`).
- `Find` hands its predicate the full path (`pc/core/core.go:104`).

## Model

| member | source | states |
|---|---|---|
| Core.CheckPathDirExist | pc/core/core.go:164-178 | no error exactly when the path is a directory; "not found" exactly when nothing is there; "not a directory" exactly when a file is there |
| Core.NewDirFileSystem | pc/core/core.go:17-23 | a file system is returned exactly when the root is an existing directory, and it is rooted there; otherwise the error is the one checkPathDirExist reports |
| Core.DirFileSystem.FullPath | pc/core/core.go:64-67 | the full path is the root followed by the subpath, and splits back into the two |
| Core.DirFileSystem.Exists | pc/core/core.go:52-61 | an entry exactly when a node exists at the full path (a failed stat gives nothing); the entry carries the full path and the subpath, and is a directory exactly when the node is |
| Core.DirFileSystem.GetDirContents | pc/core/core.go:70-88 | empty for a missing subpath, the file's own entry for a file, and for a directory one entry per child in listing order, with subpath `sub + [name]`, the matching full path, and the child's kind |
| Core.DirFileSystem.Find | pc/core/core.go:91-109 | for a directory: nothing exactly when no child's full path is accepted, otherwise the first accepted child in listing order, which may be a directory; a file is returned itself and a missing subpath gives nothing |
| Core.DirFileSystem.FindRecursive | pc/core/core.go:112-146 | the queue loop returns what FindRecursiveSpec describes: nothing for a missing subpath, the file itself for a file, otherwise the first file of the breadth-first walk whose name is accepted, as a non-directory entry with its path relative to the root |
| Core.WalkFirstMatch | pc/core/core.go:121-144 | serving the FIFO queue from the start directory finds the first matching file among the files of the directories in serving order, or nothing when there is none |
| Core.WalkStep | pc/core/core.go:124-128 | the popped head is the next directory of the walk, enqueuing its subdirectories keeps the queue invariant, and a match among its files is the walk's first match |
| Core.ScanDirectory | pc/core/core.go:128-143 | one pass over a listing: the result is the first file child whose name is accepted, and its parent is the scanned directory; directories are never offered to the predicate; without a match the queue grows by the subdirectories in listing order |
| Core.FindRecursiveNoneIff | pc/core/core.go:121-145 | below a directory, the finder finds nothing exactly when no file of the subtree has an accepted name |
| Core.FindRecursiveFound | pc/core/core.go:129-141 | a match below a directory is a file strictly below it, with an accepted name, marked as not a directory, whose subpath leads to it from the root |
| Core.FindRecursiveShallowest | pc/core/core.go:121-145 | when some file of the subtree has an accepted name, the finder returns a match, and that match is no deeper than any such file |
| Core.IsImage | pc/core/core.go:184-192 | the loop answers true exactly when the lower-cased path ends with one of the image extensions |
| Core.EndsWithAnyIff | pc/core/core.go:186-190 | trying the extensions in order finds one exactly when one of them is a suffix |
| Core.IsImageNameIff | pc/core/core.go:180-192 | a path is an image exactly when some listed extension is a suffix of its lower-cased form |
| Core.IsImageIgnoresCase | pc/core/core.go:185-187 | a path and its lower-cased form are images alike |
| Core.IsImageUpperCase | pc/core/core.go:181-192 | "A.JPG" is an image |
| Core.IsImageLongerExtension | pc/core/core.go:181-192 | "a.jpgx" is not an image |
| Search.FirstMatchAppend | pc/core/core.go:129-142 | the first match in a concatenation is the first match in the front part if there is one, else the first match in the back part |
| Search.FoundInDir | pc/core/core.go:129-141 | an accepted file child that comes after only non-matching file children is the directory's first match |
| Search.BfsSound | pc/core/core.go:128-141 | every file the walk visits from a level of directories below `d` is a file of the tree below `d`, deeper than that level |
| Search.BfsComplete | pc/core/core.go:121-145 | every file below a directory is visited by the walk from it |
| Search.BfsShallowest | pc/core/core.go:124-143 | when a visited file has an accepted name, the first match exists and is no deeper than it |
| Search.BfsFilesOfDirs | pc/core/core.go:124-143 | the files the walk visits are the files of the directories it serves, in serving order |
| Search.BfsDirsChildren | pc/core/core.go:131-133 | the subdirectories of the served directories are the directories served after the first level, in order |
| Search.WalkFixpoint | pc/core/core.go:121-133 | the served directories are the start directory followed by the subdirectories of the served directories, which is the order a FIFO queue yields |
| Search.DirServed | pc/core/core.go:121-133 | every directory below the start directory is served |
| Search.SelfChildrenEmpty | pc/core/core.go:124-144 | on a finite tree, a list of directories equal to its own subdirectories is empty, so the queue loop ends |
| Search.QueueStart | pc/core/core.go:121-122 | the queue holding only the start directory meets the queue invariant |
| Search.QueueStep | pc/core/core.go:124-133 | popping the head and appending its subdirectories keeps the queue invariant: the served directories followed by the queue are a prefix of the serving order |
| Search.QueueDone | pc/core/core.go:124 | when the queue is empty, every directory of the serving order has been served |
| Ordering.Atoi | pc/main.go:194-195 | a value is returned only for an optional sign followed by one or more digits, and only within the 64-bit range |
| Ordering.AtoiItoa | pc/main.go:194-195 | every 64-bit integer is read back from its decimal rendering |
| Ordering.AtoiOverflow | pc/main.go:194-195 | a decimal rendering outside the 64-bit range is refused, with or without a minus sign |
| Ordering.AtoiAcceptsExamples | pc/main.go:194-195 | "02" reads as 2, "+7" as 7 and "-10" as -10 |
| Ordering.AtoiRefusesExamples | pc/main.go:194-195 | "", "-" and "1a" are refused |
| Strings.LexLessIrreflexive | pc/main.go:197-199 | no string precedes itself in strings.Compare order |
| Strings.LexLessTransitive | pc/main.go:197-199 | strings.Compare order is transitive |
| Strings.LexLessTotal | pc/main.go:197-199 | of two different strings, one precedes the other |
| Ordering.NumberFirstByKey | pc/main.go:190-208 | a name precedes another exactly when its key does: numeric stems by value, numeric stems before the others, other stems in strings.Compare order |
| Ordering.NumbersFirst | pc/main.go:200-206 | a name whose stem is numeric precedes a name whose stem is not, and not the other way round |
| Ordering.NumberFirstIrreflexive | pc/main.go:190-208 | no name precedes itself |
| Ordering.NumberFirstTransitive | pc/main.go:190-208 | the order is transitive |
| Ordering.NumberFirstEquivalent | pc/main.go:190-208 | two names are mutually not-less exactly when they have the same key |
| Ordering.NumberFirstEquivalenceTransitive | pc/main.go:182-208 | being mutually not-less is transitive, so the comparator is a strict weak order as sort.SliceStable needs |
| Ordering.NumberFirstNotLessTransitive | pc/main.go:182-208 | not preceding is transitive |
| Ordering.KeyOfNumbered | pc/main.go:192-195 | a name `stem.e` with a digit stem in range has the stem's value as its key |
| Ordering.NumberFirstByValue | pc/main.go:194-207 | "2.png" precedes "10.png" and not the other way round |
| Ordering.NumberFirstLeadingZeros | pc/main.go:194-207 | "02" and "2" are mutually not-less |
| Ordering.KeyOfDoubleExtension | pc/main.go:192-193 | only the final extension is dropped: "a.tar.gz" compares as the text "a.tar" |
| Ordering.KeyOfDotFile | pc/main.go:192-206 | ".png" compares as the empty, non-numeric stem, so "1.png" precedes it |
| Paths.ExtShape | pc/main.go:192-193 | filepath.Ext returns a suffix that starts with its only '.' and holds no '/'; when it returns "", every '.' of the path is followed by a '/' |
| Paths.ExtNone | pc/main.go:192 | a name without '.' has no extension |
| Paths.ExtOfDotted | pc/main.go:192-193 | `stem.e`, for `e` free of '.' and '/', has extension ".e", and trimming it leaves `stem` |
| Listing.RecordsOf | pc/main.go:153-180 | the loop appends one record per listed entry, in listing order |
| Listing.GetWebData | pc/main.go:144-187 | one record per entry of the listing, sorted by the number-first order, a permutation of the records, with records of equal key kept in listing order |
| Listing.SortStableCorrect | pc/main.go:182-184 | the stable sort returns the same records, sorted, with the records of every key in their original order |
| Listing.SortStablePermutes | pc/main.go:182-184 | the sort is a permutation |
| Listing.SortStableSorted | pc/main.go:182-184 | the sort's result is sorted by the comparator |
| Listing.SortStableWithKey | pc/main.go:182-184 | the sort keeps the records of each key in their original order |
| Listing.SortStableLength | pc/main.go:182-184 | the sort keeps the number of records |
| Listing.FileNameIsBase | pc/main.go:154-155 | a record's file name is the last slash-separated element of its subpath |
| Listing.DirectoryWithoutImage | pc/main.go:157-170 | a directory record has an empty image URL exactly when no file below the directory has an image name |
| Listing.DirectoryImage | pc/main.go:166-169 | otherwise its image URL is the path, relative to the root, of an image file strictly below the directory, followed by "?" and the random suffix |
| Listing.FileImage | pc/main.go:171-178 | a file record's image URL is "/file" followed by its rooted subpath, then "?" and the random suffix |
| Listing.SplitButtons | pc/main.go:101-107 | exactly the directory records become buttons, and one "/file/"+subpath URL per file record becomes an image URL, both in the order of the records; the counts add up, and sorted records give sorted buttons |
| Listing.ButtonsMembers | pc/main.go:101-104 | a record is a button exactly when it is a directory record |
| Listing.ButtonsCount | pc/main.go:101-107 | every record goes to exactly one of the two lists |
| Listing.ButtonsSorted | pc/main.go:101-104 | keeping the directory records of a sorted sequence keeps it sorted |
| FileSystem.MkdirAll | pc/core/thumbnail.go:95-100 | os.MkdirAll, on success: a well-formed disk (every listing sorted) that extends the old one (files keep their content, directories keep every child), holds the directory, and whose new nodes are all directories on the way to it |
| FileSystem.MkdirAllFails | pc/core/thumbnail.go:96-100 | MkdirAll fails exactly when some prefix of the path is a file |
| FileSystem.Create | pc/core/thumbnail.go:102-106 | os.Create succeeds exactly on an existing file or a new path under an existing directory; the file then holds no image, every other file keeps its content, and every directory keeps every child it listed, in a listing that stays sorted |
| FileSystem.InsertNameSorted | pc/core/core.go:79 | a new name inserted into a sorted listing leaves it sorted, the order ioutil.ReadDir lists in |
| FileSystem.InsertNameMembers | pc/core/core.go:79 | inserting adds exactly the new name and keeps every other |
| FileSystem.SortedNamesUnique | pc/core/core.go:128 | two sorted listings of the same names are equal, so what ReadDir lists does not depend on the order in which entries were made |
| FileSystem.InsertNameExample | pc/core/core.go:79 | after ".thumbnail" is made in a root listing only "a.png", the root lists ".thumbnail" first |
| FileSystem.WriteFile | pc/core/thumbnail.go:68 | writing a file changes its content and nothing else |
| FileSystem.Host.constructor | pc/core/webp.go:15-18 | the process state starts with the given disk and cwebp flags, and no collaborator calls |
| Thumbnail.ThumbnailPathInjective | pc/core/thumbnail.go:21-23 | different subpaths have different thumbnail paths under the root's ".thumbnail" |
| Thumbnail.Decode | pc/core/thumbnail.go:78-91 | readAsImage yields a size exactly when the path is a file that decodes as a raster |
| Thumbnail.ResizeImage | pc/core/thumbnail.go:111-127 | the resized image is a raster of the requested width |
| Thumbnail.CreateThumbnailFile | pc/core/thumbnail.go:94-108 | makes the parent directories of the thumbnail, then creates it empty; fails if either step fails |
| Thumbnail.ToJpeg | pc/core/thumbnail.go:45-75 | decodes the source, serves it when at most 200 wide, otherwise creates the thumbnail, encodes into it and serves it; each failure goes through the error callback |
| Thumbnail.FindThumbnail | pc/core/thumbnail.go:26-40 | a node already at the thumbnail path is served without decoding anything or changing the disk; otherwise toJpeg runs with log.Fatal as error callback |
| Thumbnail.ToJpegHaltsIff | pc/core/thumbnail.go:45-75 | under log.Fatal, toJpeg ends the process exactly when the source does not decode, or it is wider than 200 pixels and the thumbnail file cannot be made or the encode fails |
| Thumbnail.ToJpegShows | pc/core/thumbnail.go:45-75 | toJpeg serves the source or the thumbnail and nothing else, and ends the process only under log.Fatal |
| Thumbnail.ToJpegNarrow | pc/core/thumbnail.go:54-57 | an image at most 200 pixels wide is served as it is, and the disk is left alone |
| Thumbnail.ToJpegWritten | pc/core/thumbnail.go:59-74 | when the thumbnail is served, a 200-wide raster is at its path inside an existing directory, the source was wider than 200, and encoding succeeded |
| Thumbnail.ToJpegGenerates | pc/core/thumbnail.go:45-74 | a source wider than 200 whose thumbnail file is made and encoded is shown as its thumbnail, a 200-wide raster written at the thumbnail path |
| Thumbnail.ToJpegShowsThumbnailIff | pc/core/thumbnail.go:45-75 | for a thumbnail path other than the source, the thumbnail is shown exactly when the source decodes, is wider than 200, and the thumbnail file is made and encoded |
| Thumbnail.FindThumbnailTwice | pc/core/thumbnail.go:26-40 | once a lookup has shown the thumbnail, a second lookup of the same subpath shows it from the cache, without decoding the image again |
| Thumbnail.ToJpegEncodeFails | pc/core/thumbnail.go:59-73 | a failed encode leaves the empty file it was writing at the thumbnail path and goes through the error callback |
| Thumbnail.ToJpegOnlyAdds | pc/core/thumbnail.go:45-75 | the cache only adds: no node disappears, every file but the thumbnail keeps its content, and every directory keeps every child it listed, its listing still sorted |
| Thumbnail.CreateThumbnailFileFails | pc/core/thumbnail.go:95-100 | making the directories fails exactly when a prefix of the thumbnail's parent is a file, and then no thumbnail file is created |
| Webp.WebpNameExt | pc/core/webp.go:33-34 | the renamed copy has the extension ".webp" and keeps the original's stem |
| Webp.WebpNameCases | pc/core/webp.go:33-34 | a name without an extension just gains ".webp", and renaming a copy again changes nothing |
| Webp.WebpNameDotted | pc/core/webp.go:33-34 | the copy of `stem.e` is named `stem.webp` |
| Webp.WebpPathIn | pc/core/webp.go:32-36 | the copy of an entry of `dir` lives at `dir` under the root's ".thumbnail", renamed |
| Webp.WebpPathShared | pc/core/webp.go:32-36 | two images that differ only in their final extension share one WebP path |
| Webp.WebpMeetsThumbnail | pc/core/webp.go:35 | a WebP copy's path is the thumbnail path of a subpath named like the copy: the two caches share ".thumbnail" |
| Webp.CwebpArgsShape | pc/core/webp.go:110-115 | the argument vector always ends with the input, "-o" and the output; without flags it is exactly `-q 50 src -o dest`; with flags, what precedes the last three is exactly the trimmed flags split at each space: no argument holds a space, and joined by ' ' they give back the flags |
| Webp.CwebpArgsStable | pc/core/webp.go:111 | the stored flags are trimmed, so a later call builds the same vector |
| Webp.RunTranscoder | pc/core/webp.go:117-125 | a successful transcoder run leaves a file at the output path |
| Webp.ToWebp | pc/core/webp.go:95-126 | serves a present copy without running the transcoder; otherwise makes the parent directories ignoring errors, stores the trimmed flags, runs the transcoder once with the vector built from them, and serves the copy or the original |
| Webp.FindWebp | pc/core/webp.go:39-57 | a subpath that is not an image is served as it is with no effect on the state; a present copy is served without running the transcoder; otherwise toWebp runs |
| Webp.ToWebpShows | pc/core/webp.go:117-125 | toWebp serves the source or the copy and nothing else, and never ends the process |
| Webp.ToWebpCached | pc/core/webp.go:96-99 | a present copy is served without running the transcoder and without changing the disk or the flags |
| Webp.ToWebpRuns | pc/core/webp.go:101-125 | otherwise the transcoder runs once with the vector built from the trimmed flags, and the copy is served only when the run succeeded and wrote it |
| Webp.ToWebpServesCopy | pc/core/webp.go:101-125 | a missing copy whose output file can be made is served after a successful transcoder run, and it is then on disk |
| Webp.ToWebpServesCopyIff | pc/core/webp.go:95-126 | for a missing copy path other than the source, the copy is served exactly when the transcoder succeeds and its output file can be made |
| Webp.FindWebpTwice | pc/core/webp.go:39-57 | once a lookup has served the WebP copy, a second lookup of the same subpath serves it too; when the original is not itself at the copy path, the transcoder runs at most once over both |
| Webp.ToWebpMakesParent | pc/core/webp.go:101-102 | the copy's parent directories exist after toWebp unless a file was in the way |
| Strings.TrimSpaceTrims | pc/core/webp.go:111 | trimming leaves no white space at either end, and trimming again changes nothing |
| Strings.TrimLeftDrops | pc/core/webp.go:111 | trimming the front keeps a suffix that starts with a non-space and drops only white space |
| Strings.TrimRightDrops | pc/core/webp.go:111 | trimming the back keeps a prefix that ends with a non-space and drops only white space |
| Strings.SplitJoin | pc/core/webp.go:113 | joining the parts of a split with the separator gives back the string |
| Strings.JoinSplit | pc/core/webp.go:113 | splitting a join of parts free of the separator gives back the parts |
| Strings.SplitPartsFree | pc/core/webp.go:113 | no part of a split contains the separator |

## Left out

- The HTTP layer is not modelled: gin routing, the CORS and CACHE middleware, HTML templates, JSON
  rendering, and the `/thumbnail` route handler that streams to the response writer. It is I/O
  around the core.
- `DirFileSystem.Files` is not modelled. It walks the tree in a goroutine and sends on a channel,
  and its point is concurrency.
- Start-up is not modelled: `openbrowser`, the `flag`/`init` set-up, and the writing of
  `cwebp.exe` next to the executable (`createCwebpexe`). The cwebp flags are the initial value of
  `Host.inputCwebpFlags`.
- `randomString` uses crypto randomness, so the suffix `randStr` is a parameter.
- Several collaborators are parameters rather than models: image decoding reads the size stored
  in the file's content, encode and transcode success are booleans, and the transcoder's output
  is `Bytes`.
- `Thumbnail.ResizeImage`: the height is a parameter, because the source computes it in floating
  point. The CatmullRom resampling is not modelled.
- Concurrent requests that race on the same cache path are not modelled; the code has no
  synchronisation.
- `log.Println` and `fmt.Printf` logging is left out. `log.Fatal` is the outcome `Halted`.
- `newThumbnailFile` is not part of this model: its only caller is commented out.
- `filepath.Join`, `Clean`, `Rel` and `ToSlash`: paths are element sequences, so their cleaning is
  built in. A path element is never "." or "..", so a subpath that climbs out of the root
  ("../x") cannot be represented. In the source, `filepath.Join` at `pc/core/core.go:53` and
  `:65`, `pc/core/thumbnail.go:22` and `pc/core/webp.go:35` resolves such a subpath outside the
  root, and nothing checks for it. Every modelled full, thumbnail and WebP path therefore lies
  below the root by construction.
- `Thumbnail.ThumbnailPathInjective` holds only for subpaths that stay below the root. In the
  source, "../.thumbnail/a" and "a" share the thumbnail path `D/.thumbnail/a`.
- `Core.FindRecursiveFound`: "a file strictly below the directory, reached from the root" holds
  only for subpaths that stay below the root; a subpath escaping through ".." is outside the model.
- `Webp.FindWebp` tests the cleaned, rooted subpath for an image name; `pc/core/webp.go:40` tests the
  raw subpath string. They differ on a raw subpath with a trailing slash, such as "/a/b.png/": the
  source serves it unchanged, while the model goes on to look for or make its WebP copy.
- `Core.DirFileSystem.Find`: the predicate is given the rooted rendering of the full path, "/a/b".
  The operating system's own rendering (drive letters, back slashes, a relative root) is not
  modelled.
- `Strings.ToLower` maps only the ASCII letters. Other Unicode case mappings of `strings.ToLower`
  are not modelled.
- Strings are sequences of code points. `strings.Compare` is byte order on UTF-8, which agrees with
  code-point order.
- `Listing.SortStableCorrect`: `sort.SliceStable` is modelled by its result on a sequence. That
  result is an insertion sort, which is sorted, a permutation and stable. The in-place swaps of
  Go's algorithm are not modelled.
- A failing `ReadDir` on an existing directory
  (permissions, I/O) cannot be represented: every directory node is readable. The source ignores
  that error and lists such a directory as empty.
- The `/fs` handler's "/file/"+subpath is not cleaned by the source, so it keeps the double slash
  of a rooted subpath ("/file//a.png"). The model does the same.
- Directory modes given to `os.MkdirAll` and permission errors are not modelled: a directory can
  be made wherever no file is in the way.
