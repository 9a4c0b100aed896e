# xreverselabs scanner: seed expansion, seed-file lines and lookup verdicts

The scanner reads a file of seed IPv4 addresses, expands every valid seed into
the 255 addresses of its /24 range, and asks a reverse-lookup web service about
each address from a pool of workers. A response that cannot be decoded stops
the whole scan; a response with a non-zero total has its domains appended to a
results file.

This model covers the three sequential decisions of that program:

- `SeedFile` (`seedfile.dfy`): the pure part of `readLines`. The file content
  is trimmed of surrounding white space once and then split at every line feed.
- `Expansion` (`expansion.dfy`): `generateAllIPs`, written as the method
  `GenerateAllIPs` with its loops, proved equal to the functional
  specification `Expand`. A seed is kept when the address parser accepts it
  and its text has exactly four `.`-separated parts. A kept seed contributes
  `prefix.1` … `prefix.255`, where `prefix` is the seed's own text before its
  third dot. The lemmas give the output's length, its exact content position
  by position, its order, the host numbers, and how rejected and overlapping
  seeds behave.
- `Lookup` (`lookup.dfy`): the early-return chain of `reverseLookup`. The
  network exchange is the datatype `Exchange`: the request could not be built,
  the transport failed, or a response came back with a status code and a body
  that was unreadable, undecodable or decoded to `{total, result}`.
  `ReverseLookup` gives the `critical` flag, the status line kind and the list
  passed to `saveResults`, if it is called at all. The lemmas compare it with
  an independent four-way classification of a probe, `IntendedOutcome`
  (empty, matches, recoverable, non-recoverable).
- `Text` (`text.dfy`): the Go library functions these rely on, written out:
  `strings.Split` and `strings.Join` with a one-character separator,
  `strings.TrimSpace` with `unicode.IsSpace`, and `%d` formatting.

The check `net.ParseIP(seed).To4() != nil` calls a library whose code is not
part of this model. It is the parameter `parses: iset<string>` of every
expansion member, the set of all texts that the parser accepts as an IPv4
address; a seed passes the check when it is in that set. Every property holds
whatever that set is.

Two behaviours of the code are worth noting, and the model keeps both:

- A seed is checked by the library address parser and by counting the
  dot-separated parts of its text, not by reading four numeric octets, and the
  prefix is built from the seed's own text rather than from the parsed
  address. So a seed such as `::ffff:10.0.0.5`, which the parser accepts as an
  IPv4-mapped address, expands to `::ffff:10.0.0.1` … `::ffff:10.0.0.255`
  (`FourPartSeedKeepsItsText`).
- Only status 200 counts as success, not every 2xx status: a 204 or 206 is an
  HTTP error whatever its body holds (`OtherSuccessStatusRejected`).

## Model

| member | source | states |
|---|---|---|
| `SeedFile.Lines` | xreverselabs.go:83 | the lines of a seed file are never an empty list, and no line contains a line feed |
| `SeedFile.LinesRestoreTrimmedContent` | xreverselabs.go:83 | joining the lines with line feeds gives back the trimmed content exactly, so nothing inside it is dropped or changed |
| `SeedFile.BlankContentIsOneEmptyLine` | xreverselabs.go:83 | empty or white-space-only content gives the one-element list `[""]` |
| `SeedFile.InteriorLineKept` | xreverselabs.go:83 | only the ends of the content are trimmed: a first line followed by a line feed is kept untouched, so a trailing carriage return stays on it |
| `Text.Split` | xreverselabs.go:83 | a split is never an empty list, so even empty content gives one line |
| `Text.SplitPiecesLackSeparator` | xreverselabs.go:95 | no piece of a split contains the separator |
| `Text.SplitAround` | xreverselabs.go:83 | splitting `a`, a separator, then `b` gives the pieces of `a` followed by the pieces of `b`: the text is cut at every separator and nowhere else |
| `Text.SplitJoin` | xreverselabs.go:95-101 | splitting a join of separator-free pieces gives back exactly those pieces |
| `Text.Join` | xreverselabs.go:101 | `strings.Join`: the pieces with one separator between neighbours; `JoinSplit`, `SplitJoin` and `JoinSnoc` state its relation to `Split` |
| `Text.JoinSnoc` | xreverselabs.go:101 | joining one more piece appends one separator and that piece |
| `Text.JoinSplit` | xreverselabs.go:95-101 | joining the pieces of a split with the same separator gives back the original text |
| `Text.TrimSpace` | xreverselabs.go:83 | the trimmed text is a contiguous slice of the input, starts and ends with a non-space, and everything cut off is white space |
| `Text.TrimSpaceEmptyIff` | xreverselabs.go:83 | trimming leaves nothing exactly when the input is empty or all white space |
| `Text.TrimSpaceUnpadded` | xreverselabs.go:83 | a text that neither starts nor ends with white space is left unchanged |
| `Text.TrimSpaceIdempotent` | xreverselabs.go:83 | trimming an already trimmed text changes nothing |
| `Text.Decimal` | xreverselabs.go:103 | `%d` of a number is a non-empty string of digits that starts with `0` only for zero |
| `Text.DecimalValueOfDecimal` | xreverselabs.go:103 | the digits `%d` prints read back as the same number |
| `Expansion.Accepted` | xreverselabs.go:89-99 | the two checks a seed must pass: the address parser accepts it, and its text has exactly four dot-separated parts; `EmptyLineRejected` and `FourPartSeedKeepsItsText` state what they let through |
| `Expansion.Prefix` | xreverselabs.go:95-101 | the first three dot-separated parts joined again by dots; `PrefixIsSeedText` states that this is the seed's own text before its last dot |
| `Expansion.Target` | xreverselabs.go:103 | `prefix.host` with the host in decimal; `TargetParts` states that it splits back into the seed's first three parts and the host number |
| `Expansion.Block` | xreverselabs.go:102-104 | the 255 addresses of one seed, hosts 1 to 255 in ascending order; `ExpandAt` and `HostNumbers` state each position |
| `Expansion.Expand` | xreverselabs.go:86-106 | the functional specification of the loop: each seed's block, or nothing for a rejected seed, in input order; `GenerateAllIPs` is proved equal to it and `ExpandAppend`, `ExpandLength`, `ExpandAt` state its properties |
| `Expansion.AcceptedSeeds` | xreverselabs.go:88-99 | every seed kept passes both checks, and no more seeds are kept than given; `SeedsPartition`, `SingleSeed` and `AcceptedSeedsAppend` state that every passing seed is kept, in input order |
| `Expansion.RejectedSeeds` | xreverselabs.go:89-98 | every seed reported as invalid fails one of the checks, and no more seeds are reported than given; `SeedsPartition`, `SingleSeed` and `RejectedSeedsAppend` state that every failing seed is reported, in input order |
| `Expansion.SeedsPartition` | xreverselabs.go:88-99 | every input seed is either kept or reported as invalid, and none is lost or counted twice: the two lists together are the input as a multiset |
| `Expansion.SingleSeed` | xreverselabs.go:89-99 | a single seed is kept exactly when it passes both checks and reported exactly when it fails one |
| `Expansion.AcceptedSeedsAppend` | xreverselabs.go:88 | the seeds kept from two lists in a row are those kept from each, in order, so the kept seeds keep their input order |
| `Expansion.RejectedSeedsAppend` | xreverselabs.go:88 | the seeds reported for two lists in a row are those reported for each, in order |
| `Expansion.GenerateAllIPs` | xreverselabs.go:86-107 | the loop's address list equals `Expand` of the seeds, and the seeds it reports as invalid are exactly the rejected seeds in order |
| `Expansion.ExpandAppend` | xreverselabs.go:86-106 | the output for two seed lists in a row is the two outputs in a row: the result is the per-seed blocks in input order, with no state carried between seeds |
| `Expansion.RejectedSeedSkipped` | xreverselabs.go:89-99 | a seed that fails either check adds nothing, and the seeds after it are processed as if it were absent |
| `Expansion.ExpandLength` | xreverselabs.go:102-104 | the output has exactly 255 addresses per accepted seed |
| `Expansion.ExpandEmptyIff` | xreverselabs.go:86-106 | the output is empty if and only if no seed is accepted (an empty list included) |
| `Expansion.ExpandAt` | xreverselabs.go:101-104 | address `255*q + h` of the output is `prefix.(h+1)` for the prefix of the `q`-th accepted seed |
| `Expansion.PrefixIsSeedText` | xreverselabs.go:95-101 | the prefix is the seed's own text before its third and last dot: seed = prefix + "." + fourth part |
| `Expansion.TargetParts` | xreverselabs.go:101-103 | a generated address splits into the seed's first three parts followed by the decimal host number |
| `Expansion.HostNumbers` | xreverselabs.go:102-103 | every generated address has four parts, the first three of its seed, and a host number between 1 and 255 that counts up from 1 within each block; host 0 and 256 never appear |
| `Expansion.OverlappingSeedsRepeat` | xreverselabs.go:86-106 | two accepted seeds with the same prefix give the same 255 addresses twice; duplicates are not removed |
| `Expansion.EmptyLineRejected` | xreverselabs.go:95-99 | the empty seed fails the part count whatever the address parser says, and adds nothing |
| `Expansion.BlankSeedFileExpandsToNothing` | xreverselabs.go:83-99 | a blank seed file yields no addresses and one invalid-seed report, for the empty line |
| `Expansion.FourPartSeedKeepsItsText` | xreverselabs.go:89-103 | any accepted seed `head.b.c.d` expands to `head.b.c.1` … `head.b.c.255`, keeping its own text even when `head` is not an octet, as for `::ffff:10.0.0.5` |
| `Lookup.ReverseLookup` | xreverselabs.go:129-172 | critical exactly when JSON decoding fails, and then nothing is saved, so saving and stopping the scan never come together; domains are saved exactly when a 200 response decoded with a non-zero total (negative included), and then the whole result list; total 0 gives "NO"; a status other than 200 gives an HTTP error; build, transport and body-read failures give an error line; none of these is critical |
| `Lookup.AgreesWithIntendedOutcome` | xreverselabs.go:146-171 | for every exchange except a 2xx status other than 200, the verdict amounts to the independent classification `IntendedOutcome`: recoverable error, non-recoverable error, empty or matches |
| `Lookup.OtherSuccessStatusRejected` | xreverselabs.go:147-150 | a 2xx status other than 200 is an HTTP error that saves nothing and is not critical, whatever the body holds |

## Left out

- The worker pool, the unbuffered address channel, the `sync.WaitGroup` and the `context` cancellation (xreverselabs.go:59-73, 109-127): their point is concurrency, and the `select` between the channel and cancellation is nondeterministic.
- Building the HTTP request, `client.Do` with its 10-second timeout, reading the body (xreverselabs.go:130-156): network I/O. Their outcome is the input datatype `Exchange`.
- The internals of `encoding/json` (xreverselabs.go:158-159): a foreign library. Only "decoded `{total, result}`" or "decode error" is modelled. A `total` outside Go's 64-bit `int` cannot be decoded, so it is an `Int64`.
- The internals of `net.ParseIP` and `To4` (xreverselabs.go:89-90): a foreign library, kept as the parameter `parses`.
- `saveResults` (xreverselabs.go:180-196): appending to `Resultz.txt` under a mutex is file I/O. The model stops at the list handed to it.
- `printStatus`, `printColored` and the ANSI colours (xreverselabs.go:174-202): presentation and locking. The status line is a `Status` value and the invalid-seed diagnostics are the list of rejected seeds, not their text.
- `main`, `exitWithError`, the prompts and `ioutil.ReadFile` (xreverselabs.go:37-56, 75-82, 204-207): process I/O. `SeedFile.Lines` takes the file content as a parameter.
- `Text.TrimSpace`: works on characters. Go's `strings.TrimSpace` works on UTF-8 bytes and treats invalid UTF-8 as non-space; byte-level encoding is not modelled.
