# KSS rich list, modelled in Dafny

A model of the rich-list publisher in `kss_rich_list.py`. Each cycle it takes
a balance snapshot from a KSS node (a mapping from address to raw balance),
sorts it by descending balance, and keeps the addresses that are 35 characters
long and hold a positive balance. It counts those holders and adds up their
balances, then writes an artifact with `last_updated`, `holders`,
`total_balance` and `holder_count`. After a failed cycle it waits 60 seconds.
After a successful one it waits the update interval (3600 seconds).

Modules:

- `Snapshot` (`snapshot.dfy`): snapshot entries, the listing rule (35-character
  address, balance above 0), order-preserving filtering, and the raw sum. The
  snapshot is a sequence of entries in the mapping's iteration order. That
  order decides how equal balances are ordered after the stable sort. The
  reference definitions are `Listed` (the listed entries in snapshot order)
  and `Total` (the raw sum).
- `StableSort` (`sorting.dfy`): the stable descending sort, given by the
  function `SortDesc` (insertion after every entry at least as heavy). The
  method `SortByBalance` computes it with loops. Lemmas prove that the result
  is sorted, is a permutation of the input, and keeps equal balances in input
  order. They also prove that listing commutes with sorting. The reference
  definition is `SortDesc`.
- `RichList` (`richlist.dfy`): the scan loop `BuildRichList`, which updates the
  counter, the running total and the holders list. Lemmas state what the
  artifact promises. The reference definitions are `Holders` (the listed
  entries of the sorted snapshot) and `ArtifactOf` (the packing of
  kss_rich_list.py:75-80).
- `Publisher` (`publisher.dfy`): one update cycle and the retry loop. The
  outcomes of the network request, the folder creation and the file write are
  inputs. The reference definition is `FileAfter` (the file's content after a
  run of cycles, each success overwriting it).

Balances stay raw integers. Holder records carry the raw balance, and the
total is the raw sum. The file shows both divided by 10^8.

The code sorts first and then filters. `StableSort.ListedSort` shows that
filtering first gives the same list, since listing commutes with the stable
sort. A cycle returns False, and the loop then waits 60 seconds, in four
cases: a failed request, an empty snapshot (kss_rich_list.py:34-35), a failed
folder creation (kss_rich_list.py:69-71) and a failed file write
(kss_rich_list.py:88-90).

## Model

| member | source | states |
|---|---|---|
| `Snapshot.Filter` | kss_rich_list.py:51 | every kept element comes from the input and passes the test; the result is no longer than the input |
| `Snapshot.FilterCount` | kss_rich_list.py:51 | filtering keeps each passing element exactly as often as it occurs and drops every other element |
| `Snapshot.DistinctOccursOnce` | kss_rich_list.py:50 | in a snapshot with distinct addresses (a mapping's items) each entry occurs exactly once |
| `StableSort.SortByBalance` | kss_rich_list.py:50 | the loops return exactly the stable descending sort `SortDesc` of the snapshot |
| `StableSort.InsertAt` | kss_rich_list.py:50 | inserting an entry splits the list just before the first entry lighter than it |
| `StableSort.SortSorted` | kss_rich_list.py:50 | the sorted snapshot has non-increasing balances |
| `StableSort.SortPermutes` | kss_rich_list.py:50 | the sorted snapshot is a permutation of the snapshot (same multiset) |
| `StableSort.SortStable` | kss_rich_list.py:50 | for every balance value, the entries with that balance keep their snapshot order |
| `StableSort.ListedInsert` | kss_rich_list.py:50-51 | listing after inserting into a sorted list is inserting into the listed list (or nothing, if the entry is not listed) |
| `StableSort.ListedSort` | kss_rich_list.py:50-51 | listing the sorted snapshot equals sorting the listed entries |
| `RichList.BuildRichList` | kss_rich_list.py:50-58 | holders are the listed entries of the sorted snapshot, in sorted order; the count `n` equals the number of holders; the total equals the sum of their balances; the timestamp is the one given |
| `RichList.HoldersSorted` | kss_rich_list.py:50 | holders are ordered by non-increasing balance |
| `RichList.HoldersSound` | kss_rich_list.py:51-58 | every holder has a 35-character address and a balance above 0, and is an entry of the snapshot |
| `RichList.HoldersPermuteListed` | kss_rich_list.py:50-58 | holders are, as a multiset, exactly the listed entries of the snapshot |
| `RichList.HoldersExactlyOnce` | kss_rich_list.py:50-58 | with distinct addresses, a listed snapshot entry occurs once in holders, and any other record occurs zero times |
| `RichList.HoldersStable` | kss_rich_list.py:50-51 | holders with equal balance appear in the order of their snapshot entries |
| `RichList.TotalAtLeastCount` | kss_rich_list.py:51-54 | for listed records the raw total is at least the count, and it is positive exactly when there are records |
| `RichList.ArtifactConsistent` | kss_rich_list.py:75-80 | in the artifact, `total_balance` is at least `holder_count`, and it is positive exactly when `holders` is non-empty; `holder_count` being the length of `holders` holds by the definition of `ArtifactOf` and is proved for the loop by `BuildRichList` |
| `Publisher.UpdateRichList` | kss_rich_list.py:30-90 | a cycle succeeds exactly when the snapshot is present and non-empty, the folder is created and the file is written; it writes an artifact exactly when it succeeds, and that artifact is the rich list of the snapshot |
| `Publisher.Run` | kss_rich_list.py:96-105 | after each cycle the wait is 3600 seconds if it succeeded and 60 seconds if it failed; the final file is that given by successive overwrites (`FileAfter`) |
| `Publisher.FileIsLastSuccess` | kss_rich_list.py:81-83 | after a run the file holds the artifact of the last successful cycle, whatever earlier cycles wrote |
| `Publisher.FileUntouchedWithoutSuccess` | kss_rich_list.py:33-35 | if no cycle succeeds, the file keeps its previous content |

## Left out

- The HTTP request in `fetch_richlist` (headers, API key, timeout, exception handling): network I/O. Its outcome is an input to the cycle: a snapshot, or `None`.
- The JSON body is assumed to be a mapping from strings to integers. Other JSON shapes and non-integer balances are not modelled.
- Folder creation and the JSON file write: filesystem I/O. Their success or failure is an input to the cycle. A write that fails partway and leaves a partial file is not modelled.
- The division by 1e8 and the floating-point sum of `total_balance`: float rounding is out of scope. Balances and the total are raw integers. A balance too large for a float (above about 1.8e308) raises an uncaught OverflowError at kss_rich_list.py:53 and ends the program; the model completes the cycle.
- Console output and the formatting of the table: output only. A `print` at kss_rich_list.py:84-86 that raises an OSError after the file is written is caught by `except IOError`, so the cycle returns False with the file written. Publisher.UpdateRichList does not model that case: its `written.Some? <==> success` assumes printing cannot fail.
- `datetime.utcnow()`: the clock. The timestamp is an input.
- `time.sleep`, `KeyboardInterrupt` and `sys.exit`: timing and process control. Only the chosen wait is modelled.
- Publisher.Run: models the first `|cycles|` rounds of the endless `while True` loop, not an infinite run.
- StableSort.SortByBalance: an insertion sort, not Python's own sorting algorithm. Both are stable sorts on the same key, so they give the same order.
- All of `send_each_block.py`: every step calls the external `pywaves` client (node, wallet, transactions) inside an endless polling loop. It has no self-contained logic.
