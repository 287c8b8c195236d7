# Unused GCP disks report, modelled in Dafny

`GCP/unused_disks.py` audits a Google Cloud project for block-storage disks
that no compute instance uses. It lists every disk and every instance with
`gcloud`. It then collects the `source` URL of every disk reference on every
instance into an *attached set*. It keeps the disks whose `selfLink` is not in
that set, in listing order. It gives each kept disk a coarse tier label taken
from its optional `type` field. Finally it writes `unused_disks.csv`: a header
row `Disk Name, Zone, Disk Type`, then one row `(name, zone, tier)` per kept disk.

The model has two modules:

- `Inventory` (`inventory.dfy`) holds the decoded listing records: `Disk`,
  `Instance`, `AttachedDisk`, an `Option` for the optional JSON keys, and
  `Fetch`, the outcome of one `gcloud` listing (the decoded records, or the
  failure of the external command).
- `UnusedDisks` (`unused_disks.dfy`) holds the logic:
  - `CollectAttached` is the nested loop that grows the attached set. It is
    proved against `AttachedSources`, the union over instances.
  - `Unused` is the list comprehension.
  - `Contains` is Python's substring test `sub in s`.
  - `Classify` is the tier choice.
  - `WriteRows` is the loop that appends the CSV rows.
  - `ListUnusedDisksToCsv` is the whole run, including the two early returns.

The CSV writer is modelled as a sequence of rows that the loop extends. It is
not modelled as bytes in a file.

The behaviour follows the code. One difference from the written design: the
design says a listing that fails *or returns malformed output* is caught and
ends the run quietly. The code catches only `subprocess.CalledProcessError`
(lines 15 and 28). A JSON decoding error propagates as an uncaught exception.
It still does so before the file is opened, so no file is written either way.
The model's `Fetch` failure case stands for the caught error only.

## Model

| member | source | states |
|---|---|---|
| `UnusedDisks.CollectAttached` | GCP/unused_disks.py:33-36 | The set built by adding every instance's disk-reference sources is exactly the union over all instances (`AttachedSources`). A URL is in it iff some reference of some instance names it. |
| `UnusedDisks.AttachedSourcesIff` | GCP/unused_disks.py:33-36 | A URL is in the attached set iff some instance has a disk reference whose `source` is that URL. |
| `UnusedDisks.AttachedSourcesAppend` | GCP/unused_disks.py:34-36 | The attached set of two concatenated instance listings is the union of their attached sets. Listing order and splitting do not matter. |
| `UnusedDisks.DisklessInstanceAddsNothing` | GCP/unused_disks.py:35 | An instance with no disk references leaves the attached set unchanged, wherever it is listed. This covers a missing `disks` key (the `get('disks', [])` default) and an empty list. |
| `UnusedDisks.UnusedPartition` | GCP/unused_disks.py:39 | Partition: a disk is in the unused list iff it is listed and its `selfLink` is not attached. Every listed disk is either kept or attached, never both. The result is no longer than the listing. |
| `UnusedDisks.UnusedAppend` | GCP/unused_disks.py:39 | The filter distributes over concatenation. Kept disks stay in their relative listing order. |
| `UnusedDisks.UnusedMultiplicity` | GCP/unused_disks.py:39 | Each disk occurs in the result as many times as in the listing if its `selfLink` is unattached, and zero times otherwise. |
| `UnusedDisks.UnusedPosition` | GCP/unused_disks.py:39 | The kept disk listed at index j appears in the result at the index equal to the number of disks kept before j. |
| `UnusedDisks.UnusedOrder` | GCP/unused_disks.py:39 | For kept disks at listing indices i < j, the disk at i comes strictly before the disk at j in the result. |
| `UnusedDisks.NothingUnused` | GCP/unused_disks.py:39 | If every listed disk is attached, the unused list is empty. |
| `UnusedDisks.Contains` | GCP/unused_disks.py:50-54 | Python's `sub in s` on strings is true iff `sub` occurs in `s` at some position. An empty `sub` always occurs. |
| `UnusedDisks.Classify` | GCP/unused_disks.py:47-55 | Total over the four labels `SSD`, `Balanced`, `Standard` and `unknown`. `SSD` iff the type mentions `pd-ssd`. `Balanced` iff it mentions `pd-balanced` but not `pd-ssd`. `Standard` iff it mentions `pd-standard` but neither earlier marker. `unknown` iff the type is absent or mentions none of the three. |
| `UnusedDisks.WriteRows` | GCP/unused_disks.py:45-56 | The rows are the header followed by exactly one `(name, zone, Classify(type))` row per unused disk, in unused-list order, so there is one more row than there are unused disks. |
| `UnusedDisks.ListUnusedDisksToCsv` | GCP/unused_disks.py:5-56 | A failed disk listing aborts before the instance listing is consulted. A failed instance listing aborts with nothing written. Otherwise `unused_disks.csv` gets the report of the disks whose `selfLink` no instance references. |
| `UnusedDisks.ReportDeterministic` | GCP/unused_disks.py:45-56 | Two reports of the same unused list are identical, so re-running on identical listings gives identical output. |
| `UnusedDisks.AllAttachedHeaderOnly` | GCP/unused_disks.py:39-56 | When every listed disk is attached, the report is the header row alone. |
| `UnusedDisks.OneAttachedOneUnused` | GCP/unused_disks.py:33-56 | Worked example: disks `u/A` (`pd-ssd`) and `u/B` (`d2`, `z1`, `pd-standard`), and one instance referencing `u/A`. The report is the header plus `d2,z1,Standard`. |

## Left out

- Running `gcloud` through `subprocess.run` (lines 8-13, 21-26): this is an external process. Each listing is an input that either succeeded with decoded records or failed with the command's error text.
- JSON decoding (lines 14, 27): this is a foreign library. The records arrive already decoded. An uncaught decoding error is not modelled.
- A reference without `source`, or a disk without `selfLink`, `name` or `zone`, raises `KeyError` in the code, and the code does not handle it. These fields are mandatory in the datatypes.
- A `disks` or `type` key present with a JSON `null` value would raise `TypeError` in the code. The model's optional fields are either absent or hold a value.
- CSV quoting, the file's encoding, and creating or overwriting the file (lines 42-44): the output is a sequence of string triples plus the fixed file name. Write failures are not modelled.
- The `print` diagnostics and confirmation message (lines 16, 29, 58), and the `__main__` entry point (lines 60-61): these are console I/O. The outcome records which listing failed and its error text instead.
