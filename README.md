# shuf, modelled in Dafny

`shuf` prints the lines of its input in random order. After the input has
been brought into memory as one region of bytes, the program does three
things in sequence:

- `get_recs` indexes the region: it records where every record (line)
  starts, in a table that doubles in capacity when it fills;
- `shuf` rearranges that table in place with the Fisher-Yates (Durstenfeld)
  swap loop;
- the printing loop of `main` writes every record in table order, each
  followed by exactly one newline.

When the input cannot be mapped, `try_readall` reads it in chunks of READSZ
(1 MiB) into a heap block that doubles whenever fewer than READSZ free bytes
would remain.

The model has one Dafny module per piece:

- `Memory` (`memory.dfy`): bytes, the newline delimiter, doubling
  capacities and the copying `realloc`.
- `ReadAll` (`read_all.dfy`): `try_readall`.
- `Records` (`records.dfy`): `get_recs`.
- `Shuffle` (`shuffle.dfy`): `shuf`.
- `Emission` (`emit.dfy`): the printing loop.
- `Pipeline` (`pipeline.dfy`): the three steps of `main` chained together.

Each loop is an imperative method over arrays. Its contract ties the result
to a ghost specification function:

- `RecordStarts` for the record table;
- `Shuffled` for the shuffle;
- `Join(Lines(...))` for the bytes written.

The lemmas state what the program promises about those functions:
- the table is increasing and holds exactly the offsets that follow a newline;
- the shuffle is a permutation, and every permutation can be reached;
- printing in index order gives the input back;
- the output length.

Pointers into the region become `nat` offsets, and the region is an
`array<bv8>` together with its length `bufLen`. The random generator becomes
a sequence `draws`, where `draws[i]` is the value `random()` returns in
iteration `i`. `fread` becomes a sequence of chunks, and the outcomes of
`malloc`/`realloc` in `try_readall` become an oracle `grant`. The output
stream is the byte sequence the loop produces.

## Model

| member | source | states |
|---|---|---|
| `Memory.DoubledTwice` | shuf.c:115 | Doubling a capacity of the form base·2^k gives another capacity of that form. |
| `Memory.Realloc` | shuf.c:221 | A grown block is a fresh array of the new capacity whose prefix is a copy of the old block. |
| `ReadAll.ReadChunk` | shuf.c:111 | A non-empty read is the next chunk of the stream. |
| `ReadAll.ReadInto` | shuf.c:111 | One `fread` puts the chunk at offset `len` and keeps the bytes before it. |
| `ReadAll.ConcatSnoc` | shuf.c:111-112 | The bytes of one more chunk follow those of the chunks read before it. |
| `ReadAll.Concat` | shuf.c:111-112 | The bytes `fread` has stored: the chunks read so far, in order. |
| `ReadAll.CapAfter` | shuf.c:104-115 | The capacity after `n` reads when every `realloc` succeeds: READSZ at first, doubled after each read that leaves fewer than READSZ bytes free; always READSZ·2^k. |
| `ReadAll.CapStep` | shuf.c:113-115 | One more read doubles the capacity exactly when that read leaves fewer than READSZ bytes free. |
| `ReadAll.GrantedStep` | shuf.c:113-120 | The reallocs granted so far extend by one read when that read's `realloc`, if it needs one, is granted. |
| `ReadAll.TryReadAll` | shuf.c:100-125 | A null result exactly when the first `malloc` fails. Otherwise `buf[..len]` is the in-order concatenation of the chunks read so far, and `len` never exceeds the capacity. The loop stops in one of two ways. On an empty read, `len + READSZ <= capacity` still holds, every `realloc` asked for was granted, and the capacity is `CapAfter` of the reads made. On a refused `realloc`, the last read needed one, every earlier `realloc` was granted, and the old block is kept with its capacity `CapAfter` of the reads before the last and every byte read. |
| `ReadAll.WholeStreamRead` | shuf.c:111-124 | When the loop stops on an empty read, the block holds the whole stream. |
| `Records.StartsUpTo` | shuf.c:214-226 | The starts the scan has found after `n` bytes begin with 0 and are all at most `n`. |
| `Records.StartsIncreasing` | shuf.c:214-226 | The starts found by the scan are strictly increasing. |
| `Records.StartsMembers` | shuf.c:214-226 | After `n` bytes, an offset is a start exactly when it is 0 or follows a newline at a position below `n`. |
| `Records.StartsCount` | shuf.c:214-226 | After `n` bytes, there is one start more than there are newlines among those bytes. |
| `Records.StartsStep` | shuf.c:216-226 | One more scanned byte adds the next offset exactly when that byte is a newline. |
| `Records.StrictlyIncreasingBound` | shuf.c:216-226 | A strictly increasing table of offsets below `n` has at most `n` entries, so the table never has more records than bytes. |
| `Records.RecordStarts` | shuf.c:214-228 | The table starts with 0, every entry lies inside the region, and it has at most `bufLen` entries. |
| `Records.RecordStartsIsScan` | shuf.c:216 | The table is what the scan has found when it stops before the last byte. |
| `Records.RecordStartsCharacterized` | shuf.c:214-228 | The table is strictly increasing. An offset is in it exactly when it is 0 or follows a newline other than the last byte. It has one more entry than there are newlines in `buf[0..bufLen-1)`. |
| `Records.SizeMinusOne` | shuf.c:216 | `n - 1` in 64-bit `size_t`: it is `n - 1` for `n >= 1` and stays below 2^64. |
| `Records.AsWrittenScanBound` | shuf.c:216 | The size_t loop bound `buf_len - 1` stays inside the region exactly when `buf_len >= 1`; for an empty region it wraps to 2^64 - 1. |
| `Records.GetRecs` | shuf.c:205-230 | Returns a fresh table whose first `recsLen` entries are `RecordStarts` of the region, with `recsLen <= capacity` and a capacity of 64·2^k. The input region is not written. |
| `Shuffle.Partner` | shuf.c:240 | The swap partner `j` satisfies `i <= j < len`, and a draw `d < len - i` selects `j = i + d`. |
| `Shuffle.Swap` | shuf.c:244-246 | Exchanges the two entries, leaves all the others alone and keeps the multiset. |
| `Shuffle.ShuffledFrom` | shuf.c:238-247 | The loop started at iteration `i` keeps the length and the multiset and never touches slots below `i`. |
| `Shuffle.Shuffled` | shuf.c:238-247 | The whole loop is a permutation, and a table of one entry is left unchanged. |
| `Shuffle.Shuf` | shuf.c:232-248 | After the in-place loop, `recs[..len]` is `Shuffled` of the old table and a permutation of it, and entries past `len` are unchanged. |
| `Shuffle.ShuffledFromIgnoresEarlierDraws` | shuf.c:238-240 | The loop from iteration `i` on depends only on `draws[i..]`. |
| `Shuffle.SwapExtendsAgreement` | shuf.c:244-246 | Swapping the wanted element into slot `i` extends the agreeing prefix by one and keeps the rest a rearrangement. |
| `Shuffle.PrependDraw` | shuf.c:240 | A draw of `j - i` in iteration `i`, followed by the draws for the swapped table, leads the loop from the unswapped table. |
| `Shuffle.EveryOrderingReachableFrom` | shuf.c:238-247 | From iteration `i`, every rearrangement of the untouched suffix is produced by some in-range draw vector. |
| `Shuffle.EveryOrderingReachable` | shuf.c:238-247 | Every permutation of the table is the result of some draw vector with `draws[k] < len - k`. |
| `Emission.RecordEnd` | shuf.c:292-294 | The end of a record is the first newline at or after its start, or `bufLen` when there is none. |
| `Emission.RecordEndAt` | shuf.c:293 | A position with no newline between the start and it, that is itself a newline or the region end, is the record's end. |
| `Emission.Line` | shuf.c:292-295 | The bytes `fwrite` writes for a record: they hold no newline and stay inside the region. |
| `Emission.Lines` | shuf.c:291-295 | There is one record per table entry. |
| `Emission.LinesAt` | shuf.c:292-295 | Entry `k` of the records is the record that starts at table entry `k`. |
| `Emission.Join` | shuf.c:295-296 | The output of the printing loop: each record followed by one newline, in order. |
| `Emission.JoinAppend` | shuf.c:291-297 | Printing two lists of records one after the other prints their concatenation. |
| `Emission.JoinLength` | shuf.c:295-296 | The output holds every byte of every record plus one newline per record. |
| `Emission.JoinLengthPermutation` | shuf.c:291-297 | Printing any rearrangement of the records gives output of the same length. |
| `Emission.Emit` | shuf.c:291-297 | The bytes written are, in table order, each record up to its end, each followed by one newline. The bound is tested before the byte is read. |
| `Emission.ProbesAsWritten` | shuf.c:293 | The positions the scan dereferences as written, starting with the record start and reaching up to `bufLen` itself. |
| `Emission.AsWrittenReadsPastEnd` | shuf.c:293 | As written, the scan reads the byte one past the region exactly when the record has no newline. |
| `Emission.AsWrittenReadsPastEndExample` | shuf.c:293 | For the one-byte region `a`, the scan as written reads positions 0 and 1. |
| `Emission.ProbesChecked` | shuf.c:293 | With the bound tested first, every byte read lies inside the region, and the terminating newline, when there is one, is read. |
| `Pipeline.JoinLinesSnoc` | shuf.c:291-297 | Printing one more table entry appends its record and a newline. |
| `Pipeline.ClosedRecordReproduced` | shuf.c:292-296 | A record closed by a newline is printed as exactly its bytes and that newline. |
| `Pipeline.OpenRecordReproduced` | shuf.c:292-296 | A last record without a newline is printed with one newline added. |
| `Pipeline.ScanReproduces` | shuf.c:214-226 | After the scan has read `n` bytes, the records before the last start found print as exactly the bytes before it, and no newline follows that start before `n`. |
| `Pipeline.WholeReproduced` | shuf.c:291-297 | When the earlier records reproduce everything before the last one, printing all of them gives the region back, plus a newline when the region does not end in one. |
| `Pipeline.InOrderReproducesInput` | shuf.c:205-230 | Printing the records in index order gives the input back, with one newline added exactly when the last byte is not a newline. |
| `Pipeline.LinesSwap` | shuf.c:244-246 | Exchanging two table entries exchanges the records they designate. |
| `Pipeline.LinesShuffledFrom` | shuf.c:238-247 | Shuffling the table and then reading its records is the same as shuffling the records. |
| `Pipeline.WithinShuffledFrom` | shuf.c:238-247 | After shuffling, every table entry still lies inside the region. |
| `Pipeline.ShuffledOutputLength` | shuf.c:282-297 | Whatever the draws, the output is as long as the input, plus one byte when the input lacks a final newline. |
| `Pipeline.ShufMain` | shuf.c:285-297 | `get_recs`, `shuf` and the printing loop in sequence. The output is the input's records in `Shuffled` order, each exactly once and followed by one newline, and it is `bufLen` bytes long, plus one when the input lacks a final newline. It needs one draw per record but the last, as many as `shuf` consumes. |

## Left out

- `stubborn_mmap`, `try_getlen` and `copy_all` (shuf.c:73-203) are not part of this model. They decide between `mmap`, a full read and a temporary file, over `fseek`/`ftell`/`mmap`/`tmpfile`, whose outcomes cannot be seen here. `feof` after `try_readall` is not modelled either.
- Argument parsing, usage errors and exit codes in `main` (shuf.c:265-280), `err`/`errx`/`debugf` and verbosity are diagnostics and plumbing.
- `random()`/`rand()` and the seeding with `time(NULL)` are replaced by the `draws` sequence. Uniformity and the modulo bias of `random() % (len-i)` are probabilistic and outside this model. The draws are unbounded naturals, not values of `long`.
- `fwrite`/`putchar` to stdout are modelled as the byte sequence `Emit` returns.
- The `_WIN32` branches are not modelled.
- `Records.GetRecs`: a failed `malloc`/`realloc` of the table ends the process with `EX_UNAVAILABLE` (shuf.c:212-213, shuf.c:221-223). Dafny's allocation cannot fail, so that exit is not modelled.
- `Records.GetRecs`, `Shuffle.Shuf` and `Pipeline.ShufMain` require a non-empty region (`bufLen >= 1`) and table (`len >= 1`). The source computes `buf_len-1` and `len-1` in `size_t`, and these wrap for an empty input (see `Records.AsWrittenScanBound`). An empty input therefore makes the source read past the region. For an empty pipe, the scan runs over the uninitialised 1 MiB block and beyond. For an empty mapped file, `mmap` returns MAP_FAILED, which passes the null test at shuf.c:159, and `get_recs` dereferences it. The source has no zero-record path, so none is modelled.
- The widths of `size_t` and of `long` are not modelled, except in `Records.SizeMinusOne`. Offsets, lengths and capacities are unbounded naturals, so the `cap *= 2` and `recs_cap *= 2` products never overflow here.
- `Shuffle.Shuf` needs at least `len - 1` draws, one per iteration; `Pipeline.ShufMain` needs one per record but the last.
- `ReadAll.TryReadAll`: every chunk is at most READSZ bytes (`ChunksFit`), as `fread` with a count of READSZ guarantees. A short read that is not the end of the stream is an ordinary non-empty chunk.

## Findings

| source | as written | input that shows it | evidently intended | confidence | as-written member | corrected member |
|---|---|---|---|---|---|---|
| shuf.c:293 | `*end` is read before `end < buf+buf_len` is tested, so when the last record has no newline the byte one past the region is read | the one-byte input `a` with no trailing newline: the scan reads `buf[1]` of a 1-byte region | test the bound first, then the byte | high (not executed) | `Emission.AsWrittenReadsPastEnd` | `Emission.ProbesChecked` |

`Emission.Emit` scans with the bound tested first, so every byte it reads
lies inside the region.
