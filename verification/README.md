# NexaCore OS: verified core

A Dafny model of the parts of NexaCore OS whose correctness rests on an invariant over every run, or on arithmetic that
is easy to get wrong. Each part is a specification on values, the code itself as methods and classes proved against it,
and theorems about the specification.

| modules | part of the system |
|---|---|
| `Bits`, `Allocator`, `AllocatorSafety`, `AllocatorRuns`, `FreeListAllocator` | the display image's reclaiming allocator: power-of-two classes, free lists threaded through the freed blocks, a bump cursor |
| `Crc`, `CrcPolynomial`, `Gpt`, `GptLayout`, `GptProofs`, `GptTheorems`, `GptGuids`, `GptImage` | in-place normalisation of a disk image's two GUID partition tables (section 5.3 of the UEFI specification 2.10) and its CRC-32 |
| `CivilDate` | the date arithmetic of the two build scripts and the stamp they print |
| `Geometry`, `Pixels`, `Display`, `Blit`, `Zones`, `Desktop` | damage-driven presentation of the desktop with its menu bar and dock |
| `Mode`, `SessionRuns`, `ModeRuns`, `ModeSteps`, `RateLimit`, `ModeManager` | Standard, High-Risk and Emergency Recovery modes, recovery sessions, the activation rate limit |
| `WorkflowUndo`, `UndoWindow` | workflow execution, inverse workflows, the 30-second undo window |
| `Privacy`, `PrivacyAccountant` | differential-privacy budgets, the ledger, the pre-flight check |
| `Scope`, `Attenuation` | capability scopes, their order, attenuation by caveats, chains of tokens |
| `Hash`, `Accounts`, `AccountRuns`, `UserStore`, `AuthStack` | credentials, the two-index user store, the authentication stack |

`Wrappers` holds the shared option and result types. `dafny verify dfyconfig.toml` checks everything.

## What does not hold, and exactly when it does

- **Alignment of allocations.** Offsets are as aligned as requested, but the arena is a plain byte array, so a block's
  address is aligned if and only if the arena's address is (`AddressAlignedIff`, `OddBaseMisaligns`).
- **"Three activations per 24 hours".** The counter is a fixed window, so six activations fit into six minutes
  (`SixInSixMinutes`). At most six fit into any 24 hours (`AtMostSixPerDay`). An activation keeps the documented limit if
  and only if the counter, plus the activations of the window before that are less than a day old, is below three
  (`KeepsThreePerDayIff`), and a run keeps it if and only if each of its activations does (`RunKeepsThreePerDayIff`).
- **An expired recovery closes its session.** `current_mode` reads the clock twice. When the readings fall on either
  side of the two expiries, and only then, the mode leaves recovery and the session stays open (`StrandedIff`,
  `StrandedRun`); every later activation is then refused until an outside caller closes it (`StrandedForGood`).
  With one reading per call and no outside caller this cannot happen (`QuietActivationNeverBlocked`).
- **A run marked reversible can be undone.** Undo restores the files if and only if no successful step overwrote a file
  (`UndoRestoresIff`, `ReplayRestoresIff`; counterexample `MarkedReversibleButLost`).
- **The defensive error of attenuation is unreachable.** A network resource without a port is not a subset of itself
  (`ResourceReflexiveIff`), so any caveat on it that keeps the window open reports a broken invariant
  (`DefensiveErrorIff`, `DefensiveErrorReached`).
- **Every build epoch has its own GUIDs.** Epochs collide if and only if they agree outside bits 20 to 23 and 38 to 39,
  which the version and variant bits overwrite (`EpochsCollideIff`, `EpochsCollide`).
- **Every entry has its own GUID.** `1 + i as u8` overflows for a used entry whose index is 255 modulo 256. The image
  builder is outside the workspace (Cargo.toml:441), so the workspace's overflow checks do not reach it. A development
  build panics on such an entry; a release build, which makes the shipped image (scripts/build-iso.sh:204), wraps,
  succeeds on every well-formed image (`NormalizeSucceedsIff`), and gives an entry the disk's GUID if and only if its
  index is 255 modulo 256 (`GuidsDistinct`). `FullTableOutcomes` shows both on one image.
- **The chrome pass reads no stale pixel.** The menu bar and the dock overlap if and only if the screen has fewer than
  425 rows (`ZonesApartIff`). The two composite passes leave each zone untouched or fresh if and only if the zones are
  apart or one lies inside the other (`AlwaysWholeIff`).

Where comments and code disagree the model follows the code: the GUID prefix is `OMNI` (its comment says otherwise),
trigger-activated High-Risk mode can be deactivated like any other, and the recovery limit is the fixed window above.

## Model

| member | source | states |
|---|---|---|
| `Bits.AlignUpCorrect` | crates/nexacore-apps-image/src/main.rs:287-287 | the mask idiom gives a multiple of a power of two at or above the cursor and less than one block above it |
| `Bits.AlignUpLeast` | crates/nexacore-apps-image/src/main.rs:287-287 | it is the least such multiple |
| `Allocator.SizeClassIsLeast` | crates/nexacore-apps-image/src/main.rs:212-221 | a request has class `c` if and only if `c` is below 18, its size and its alignment are at most 2^(c+4), and `c` is 0 or one of them exceeds 2^(c+3) |
| `Allocator.OversizedHasNoClass` | crates/nexacore-apps-image/src/main.rs:212-221 | a request has no class if and only if its size or its alignment exceeds 2 MiB |
| `AllocatorSafety.AllocExact` | crates/nexacore-apps-image/src/main.rs:235-259 | allocation pops the head of the class that `SizeClassIsLeast` describes; with none freed it places a block of 2^(c+4), or of the request's own size and alignment beyond 2 MiB, at the least multiple at or above the cursor, and returns null and changes nothing when that passes 64 MiB |
| `AllocatorSafety.DeallocExact` | crates/nexacore-apps-image/src/main.rs:261-273 | release makes the block the head of that class's list with the old head in its first word, and does nothing beyond 2 MiB |
| `AllocatorSafety.StepKeepsInv` | crates/nexacore-apps-image/src/main.rs:235-295 | every allocation, release of a live block and client write keeps carved extents disjoint, live blocks large and aligned enough, and each chain of links spelling out exactly its class's freed blocks |
| `AllocatorRuns.RunIsSafe` | crates/nexacore-apps-image/src/main.rs:235-295 | after every legal run live and freed blocks lie in the arena and are pairwise disjoint, live ones are large and aligned enough, and the free lists are duplicate-free and confined to their class |
| `AllocatorRuns.AddressAlignedIff` | crates/nexacore-apps-image/src/main.rs:181-181 | a live block's address has its requested alignment if and only if the arena's address has |
| `AllocatorRuns.OddBaseMisaligns` | crates/nexacore-apps-image/src/main.rs:181-181 | an odd arena address misaligns the first allocation |
| `AllocatorRuns.PeakIsMost` | crates/nexacore-apps-image/src/main.rs:235-273 | the peak of a class is reached by some prefix of the run and passed by none |
| `AllocatorRuns.CarvedIsPeak` | crates/nexacore-apps-image/src/main.rs:235-273 | the blocks ever carved for a class number exactly its peak |
| `AllocatorRuns.LargeIsOversized` | crates/nexacore-apps-image/src/main.rs:256-257 | what the book charges to requests without a class is the sum over those served |
| `AllocatorRuns.CursorBounded` | crates/nexacore-apps-image/src/main.rs:283-295 | the cursor is bounded by the class peaks, each block with less than a block of padding, plus the served oversized requests |
| `AllocatorRuns.FailsIff` | crates/nexacore-apps-image/src/main.rs:235-295 | allocation returns null if and only if its class has no freed block and no aligned block of its size fits above the cursor |
| `AllocatorRuns.NoFailureWithinBudget` | crates/nexacore-apps-image/src/main.rs:173-178 | no run fails an allocation while its peaks' budget, the request and its padding fit the arena |
| `AllocatorRuns.FreeThenAlloc` | crates/nexacore-apps-image/src/main.rs:235-273 | a block just freed is the next one served to its class, and the free lists are then as before |
| `FreeListAllocator.FreeListAllocator.constructor` | crates/nexacore-apps-image/src/main.rs:178-203 | the initial statics are the initial state of the runs |
| `FreeListAllocator.FreeListAllocator.Bump` | crates/nexacore-apps-image/src/main.rs:283-295 | advances the cursor past an aligned block, or returns null and changes nothing |
| `FreeListAllocator.FreeListAllocator.AllocBlock` | crates/nexacore-apps-image/src/main.rs:235-259 | in place, exactly what `AllocExact` describes: the class's head popped by reading its link, or a block placed above the cursor, or null |
| `FreeListAllocator.FreeListAllocator.Alloc` | crates/nexacore-apps-image/src/main.rs:235-259 | keeps the invariant; hands out a block that was not live and overlaps nothing live, or changes nothing |
| `FreeListAllocator.FreeListAllocator.DeallocBlock` | crates/nexacore-apps-image/src/main.rs:261-273 | in place, exactly what `DeallocExact` describes |
| `FreeListAllocator.FreeListAllocator.Dealloc` | crates/nexacore-apps-image/src/main.rs:261-273 | releasing a live block with its own layout keeps the invariant and removes just that block from the live ones |
| `CivilDate.YearOfEraCorrect` | crates/nexacore-apps-image/build.rs:139-139 | the nested divisions find the year of the era whose span holds the day |
| `CivilDate.CivilCountsBack` | crates/nexacore-apps-image/build.rs:128-148 | for every day count the date is a valid Gregorian date, and counting its days year by year and month by month returns the input |
| `CivilDate.CivilInvertsCount` | crates/nexacore-apps-image/build.rs:128-148 | every Gregorian date from 1970 on is the conversion of its own day number |
| `CivilDate.ConsecutiveDays` | crates/nexacore-apps-image/build.rs:128-148 | day 0 is 1 January 1970 and consecutive day counts are consecutive calendar dates |
| `CivilDate.CopiesAgree` | crates/nexacore-kernel/build.rs:92-112 | the kernel's copy, modelled as its own chain of expressions, prints the same stamp for every build time |
| `CivilDate.StampIdentifiesMinute` | crates/nexacore-apps-image/build.rs:128-148 | two build times print the same stamp if and only if they fall in the same minute |
| `CivilDate.StampReads` | crates/nexacore-apps-image/build.rs:128-148 | the stamp reads year, month, day, hour and minute as decimal digits with `-`, `-`, a space, `:` and ` UTC` between and after them; the date is valid, and counting its days and adding hours and minutes gives the build time to the minute |
| `Crc.EightSteps` | disk-image/src/gpt_normalize.rs:35-37 | the inner loop is eight of the steps whose meaning `RegisterIsRemainder` gives |
| `Crc.ComputeCrc32` | disk-image/src/gpt_normalize.rs:31-40 | the byte loop computes the value that `Crc32IsRemainder` pins down |
| `CrcPolynomial.RemainderUnique` | disk-image/src/gpt_normalize.rs:31-40 | over the two-element field, with the generator given by its exponents 32, 26, 23, 22, 16, 12, 11, 10, 8, 7, 5, 4, 2, 1 and 0, remainders below degree 32 are unique |
| `CrcPolynomial.RegisterIsRemainder` | disk-image/src/gpt_normalize.rs:32-39 | after any input the reflected register is the remainder of the message, read lowest bit first, with its first 32 coefficients complemented, times x^32 |
| `CrcPolynomial.Crc32IsRemainder` | disk-image/src/gpt_normalize.rs:31-40 | for every input the CRC is the complemented, reflected remainder of that polynomial |
| `CrcPolynomial.Crc32Determined` | disk-image/src/gpt_normalize.rs:31-40 | and the only 32-bit word that is |
| `CrcPolynomial.CheckValue` | disk-image/src/gpt_normalize.rs:31-40 | the nine bytes of `123456789` give 0xCBF43926 |
| `CrcPolynomial.Residue` | disk-image/src/gpt_normalize.rs:31-40 | every input followed by its own CRC, lowest byte first, leaves the register at 0xDEBB20E3 |
| `Crc.BitStepLinear` | disk-image/src/gpt_normalize.rs:36-36 | one bit step is linear over exclusive or |
| `Crc.BitStepInjective` | disk-image/src/gpt_normalize.rs:36-36 | one bit step is injective on 32-bit states |
| `Crc.FeedFour` | disk-image/src/gpt_normalize.rs:33-38 | four bytes are absorbed as one little-endian word by 32 steps, whatever the register |
| `Crc.Crc32DetectsWindow` | disk-image/src/gpt_normalize.rs:31-40 | inputs of equal length that differ only within four consecutive bytes have different CRCs |
| `Gpt.SetEntryGuids` | disk-image/src/gpt_normalize.rs:92-97 | the in-place entry loop rewrites the unique GUID of each used entry; its index byte wraps, or stops a checked build |
| `Gpt.SealCrcs` | disk-image/src/gpt_normalize.rs:99-106 | stores the array CRC, then the header CRC computed with its own field zeroed |
| `Gpt.WrappedArrayLeaves` | disk-image/src/gpt_normalize.rs:81-97 | when the array's end wraps around, the entry loop leaves the image at an entry addressed without wrapping, so the builder dies |
| `GptLayout.ParseFoundIff` | disk-image/src/gpt_normalize.rs:55-83 | reading a header succeeds with a geometry if and only if the bytes `EFI PART` stand at its sector and the fields at offsets 12, 72, 80 and 84, read lowest byte first, are exactly its numbers, plausible, with the array inside the image; for checked and wrapping builds |
| `GptLayout.ParseRejectsIff` | disk-image/src/gpt_normalize.rs:65-79 | a header beyond the image, a missing signature and an implausible geometry are each reported if and only if they are the first defect |
| `GptLayout.ArrayRejectedIff` | disk-image/src/gpt_normalize.rs:81-85 | the array is refused if and only if its end, as the build computes it, lies beyond the image, and the builder dies if and only if that end overflows unnoticed |
| `GptProofs.PatchIsPatched` | disk-image/src/gpt_normalize.rs:87-106 | a pass leaves every byte outside its GUIDs and checksums alone, gives each used entry and the disk their GUIDs, and seals array and header; it dies if and only if a checked build meets a used entry whose index byte overflows |
| `GptTheorems.NormalizeSucceedsIff` | disk-image/src/gpt_normalize.rs:112-120 | a well-formed image succeeds in every wrapping build, and in a checked build if and only if no used entry's index is 255 modulo 256; otherwise it panics |
| `GptTheorems.Reproducible` | disk-image/src/gpt_normalize.rs:64-120 | images whose bytes lay out two tables apart from each other, as `ParseFoundIff` spells out, and that differ only in disk GUIDs, unique GUIDs of used entries and checksums get the same verdict and become byte-identical |
| `GptTheorems.OnlyVolatileChanges` | disk-image/src/gpt_normalize.rs:64-120 | every byte outside those fields is preserved |
| `GptTheorems.Idempotent` | disk-image/src/gpt_normalize.rs:64-120 | normalising twice equals normalising once |
| `GptTheorems.NormalizedChecksums` | disk-image/src/gpt_normalize.rs:99-119 | afterwards all four stored checksums are valid, although the second pass runs after the first header was sealed |
| `GptTheorems.ArrayDamageShows` | disk-image/src/gpt_normalize.rs:99-101 | damage within four consecutive bytes of a normalised array disagrees with its stored checksum |
| `GptTheorems.HeaderDamageShows` | disk-image/src/gpt_normalize.rs:103-106 | damage within four consecutive bytes of a sealed header, outside its own checksum field, disagrees with that checksum |
| `GptGuids.NormalizedHasGuids` | disk-image/src/gpt_normalize.rs:87-119 | both tables of the final image hold the derived disk GUID and entry GUIDs |
| `GptGuids.GuidsDistinct` | disk-image/src/gpt_normalize.rs:45-120 | in the final image used entries of either table share a GUID if and only if their indices agree modulo 256, an entry has the disk's if and only if its index is 255 modulo 256, and the two disk GUIDs agree |
| `GptGuids.SmallTableDistinct` | disk-image/src/gpt_normalize.rs:45-120 | a table of at most 255 entries has pairwise distinct GUIDs, none of them the disk's, in every build |
| `GptGuids.FullTableOutcomes` | disk-image/src/gpt_normalize.rs:92-97 | a well-formed image with a used entry 255: a checked build panics, a wrapping one succeeds with a colliding GUID |
| `GptGuids.EpochsCollideIff` | disk-image/src/gpt_normalize.rs:45-53 | two epochs derive the same GUID if and only if they agree outside bits 20 to 23 and 38 to 39 |
| `GptGuids.EpochsCollide` | disk-image/src/gpt_normalize.rs:45-53 | two build epochs, 2^20 seconds apart, derive the same GUID |
| `GptImage.GuidBytes` | disk-image/src/gpt_normalize.rs:45-53 | the sixteen bytes of a derived GUID: 4F 4D 4E 49, the epoch lowest byte first with version 4 and the variant bits set in it, the index, three zeros |
| `GptImage.NormalizedImage` | disk-image/src/gpt_normalize.rs:64-120 | a well-formed image ends with, in both tables, that GUID with index 0 at byte 56 of the header and with index (i + 1) modulo 256 at byte 16 of each entry i whose type is not all zero, the array's CRC at byte 88, the header's CRC with its own field taken as zero at byte 16, and every other byte as it was |
| `GptImage.PanicsIff` | disk-image/src/gpt_normalize.rs:92-120 | a well-formed image panics if and only if the build is checked and a used entry of either table has index 255 modulo 256; otherwise it succeeds |
| `GptImage.PassNormalizes` | disk-image/src/gpt_normalize.rs:64-109 | one pass does the same to its one table |
| `GptImage.PrimaryRejected` | disk-image/src/gpt_normalize.rs:65-79 | an image below three sectors, without the signature or with an implausible primary header gets just that verdict and is left alone |
| `GptImage.PrimaryArrayRejected` | disk-image/src/gpt_normalize.rs:81-85 | a primary array that ends beyond the image is refused and the image left alone; one whose end overflows kills the builder |
| `GptImage.PrimaryOverflows` | disk-image/src/gpt_normalize.rs:81-81 | a primary array that starts beyond the address limit kills a checked build |
| `GptImage.BackupRejected` | disk-image/src/gpt_normalize.rs:112-120 | a backup that is refused is refused after the primary was patched: the image is left with a normalised primary table |
| `GptImage.NormalizeHeader` | disk-image/src/gpt_normalize.rs:64-109 | one header pass in place, with every rejection and overflow in the source's order; a table laid out as `ParseFoundIff` says ends as `NormalizedImage` says |
| `GptImage.NormalizeGpt` | disk-image/src/gpt_normalize.rs:112-120 | the primary pass, then the backup the original image names, in place; a well-formed image ends as `NormalizedImage` says |
| `Geometry.IntersectPoints` | crates/nexacore-display/src/geometry.rs:252-271 | the intersection holds exactly the common points and is absent if and only if there are none, with the machine widths |
| `Geometry.UnionCovers` | crates/nexacore-display/src/geometry.rs:315-337 | the bounding box covers both rectangles on every screen point, even when it saturates |
| `Geometry.UnionIsLeast` | crates/nexacore-display/src/geometry.rs:315-337 | it lies in every box around both |
| `Geometry.AddDamageCovers` | crates/nexacore-display/src/geometry.rs:453-474 | adding damage loses no screen pixel, also when sixteen rectangles collapse to one, and keeps the bound |
| `Geometry.AddDamageIs` | crates/nexacore-display/src/geometry.rs:453-474 | empty rectangles are ignored, up to sixteen are kept in order, one more collapses them to one box that lies in every box around them |
| `Geometry.PartialIff` | crates/nexacore-apps-image/src/gfx.rs:129-137 | the second pass's test fires if and only if a rectangle reaches some points of a zone and misses some |
| `Geometry.ClampAllCovers` | crates/nexacore-display/src/geometry.rs:497-513 | clamping drops exactly the points off the screen |
| `Display.ZonesApartIff` | crates/nexacore-apps-image/src/gfx.rs:462-484 | the two chrome zones share no pixel if and only if the screen has at least 425 rows |
| `Display.StripRects` | crates/nexacore-apps-image/src/gfx.rs:462-484 | the menu bar is 34 rows, the panel 64 by 357 from column 14, its canvas 80 columns from column -2, both centred vertically with halving toward zero |
| `Display.MeetsIff` | crates/nexacore-apps-image/src/gfx.rs:535-536 | the repaint test fires if and only if a dirty rectangle reaches a pixel of the strip |
| `Display.MetWhole` | crates/nexacore-apps-image/src/gfx.rs:129-137 | a zone met by dirty rectangles, but by none only in part, is covered whole |
| `Zones.AlwaysWholeIff` | crates/nexacore-apps-image/src/gfx.rs:101-148 | whatever the first pass drew, both zones end untouched or fresh throughout, if and only if the screen has at least 425 rows, or at most 34, or at most 78 columns and 358 rows |
| `Zones.PanelShownIff` | crates/nexacore-apps-image/src/gfx.rs:82-89 | the damage of a raised dock flag reaches the screen if and only if it has more than 14 columns |
| `Blit.FillAll` | crates/nexacore-display/src/compositor.rs:435-505 | redraws exactly the covered pixels from the scene |
| `Blit.CopyRectIn` | crates/nexacore-apps-image/src/gfx.rs:650-684 | copies every canvas cell with a screen pixel into the scratch and leaves the others |
| `Blit.CopyRectOut` | crates/nexacore-apps-image/src/gfx.rs:650-684 | copies the scratch back onto exactly the dock's screen pixels |
| `Blit.BlitAll` | crates/nexacore-apps-image/src/gfx.rs:184-226 | afterwards the framebuffer shows the back buffer wherever a dirty rectangle reaches and is unchanged elsewhere |
| `Blit.ZoneAfterPasses` | crates/nexacore-apps-image/src/gfx.rs:128-148 | after the second pass each zone is untouched or covered whole |
| `Desktop.Desktop.Damage` | crates/nexacore-display/src/compositor.rs:525-527 | marks a rectangle stale and unmarks nothing |
| `Desktop.Desktop.Composite` | crates/nexacore-display/src/compositor.rs:422-508 | redraws exactly the stale screen pixels, reports exactly them, clears the damage |
| `Desktop.Desktop.FirstPass` | crates/nexacore-apps-image/src/gfx.rs:74-99 | a raised flag makes the first pass reach its strip |
| `Desktop.Desktop.SecondPass` | crates/nexacore-apps-image/src/gfx.rs:128-148 | redraws exactly the zones the first pass only cut |
| `Desktop.Desktop.Recomposite` | crates/nexacore-apps-image/src/gfx.rs:74-148 | every reported pixel is a fresh scene pixel, nothing else changed, and each zone is untouched or fresh throughout |
| `Desktop.Desktop.PaintMenu` | crates/nexacore-apps-image/src/gfx.rs:536-569 | the strip becomes one rendering of the current model over pure scene pixels |
| `Desktop.Desktop.RepaintMenu` | crates/nexacore-apps-image/src/gfx.rs:524-569 | paints if and only if the strip was refreshed, and reports no new pixel |
| `Desktop.Desktop.PaintDock` | crates/nexacore-apps-image/src/gfx.rs:581-630 | the same for the dock's canvas, with off-screen cells zeroed |
| `Desktop.Desktop.RepaintDock` | crates/nexacore-apps-image/src/gfx.rs:571-631 | paints the dock if and only if its zone was refreshed |
| `Desktop.Desktop.DrawMenuStage` | crates/nexacore-apps-image/src/gfx.rs:74-155 | composite and menu repaint: the strip shows the current model, the rest is scene or unchanged |
| `Desktop.Desktop.DrawFrame` | crates/nexacore-apps-image/src/gfx.rs:74-155 | the back buffer ends as a full redraw and differs from before only where it says |
| `Desktop.Desktop.Present` | crates/nexacore-apps-image/src/gfx.rs:55-231 | after every present the back buffer and the framebuffer both equal a redraw from scratch of scene, menu bar and dock, each strip blended once; a short back buffer draws nothing |
| `Desktop.Desktop.PresentedIsConsistent` | crates/nexacore-apps-image/src/gfx.rs:55-231 | what a present leaves is what the next one needs |
| `Desktop.Desktop.SceneChanged` | crates/nexacore-display/src/compositor.rs:525-527 | a window operation that damages every pixel it changes keeps the desktop consistent |
| `Desktop.Desktop.SetFocusedApp` | crates/nexacore-apps-image/src/gfx.rs:332-339 | sets the name, flags the menu strip if and only if it changed, keeps consistency |
| `Desktop.Desktop.SetAiState` | crates/nexacore-apps-image/src/gfx.rs:352-365 | the same for the AI pill |
| `Desktop.Desktop.SetDockModel` | crates/nexacore-apps-image/src/gfx.rs:371-377 | the same for the dock tiles and the dock flag |
| `Desktop.Desktop.SetDockHover` | crates/nexacore-apps-image/src/gfx.rs:382-388 | the same for the hovered tile |
| `Desktop.Desktop.SetDark` | crates/nexacore-apps-image/src/gfx.rs:407-414 | the same for the theme, with both flags |
| `Desktop.Desktop.constructor` | crates/nexacore-apps-image/src/gfx.rs:300-321 | start-up with everything damaged is consistent, whatever the framebuffer held |
| `SessionRuns.RunKeeps` | crates/nexacore-agent/src/mode.rs:231-470 | in every run archived ids are 1 to n in order, a current session is active and next in line, action ids are consecutive across sessions, and the counter is the archived actions plus the current ones |
| `SessionRuns.HistoryOnlyGrows` | crates/nexacore-agent/src/mode.rs:453-470 | the archive of any prefix of a run is a prefix of the archive |
| `SessionRuns.RecordedIdsIncrease` | crates/nexacore-agent/src/mode.rs:305-325 | `record_action` returns an id if and only if a session is open, and ids strictly increase over the run |
| `SessionRuns.ReportIsComplete` | crates/nexacore-agent/src/mode.rs:410-430 | a session opened, used and closed after any run is reported with its id, its authentication, exactly its actions in order, and the whole seconds it lasted, at most as many as it was given |
| `ModeRuns.RunKeepsRate` | crates/nexacore-agent/src/mode.rs:627-711 | in every run rate-limit windows start at least a day apart, each activation lies in its window, and none holds more than three |
| `ModeRuns.SevenSpanADay` | crates/nexacore-agent/src/mode.rs:627-711 | three activations on is a later window, and six on is at least a day later |
| `ModeRuns.AtMostSixPerDay` | crates/nexacore-agent/src/mode.rs:627-711 | any half-open 24 hours hold at most six activations |
| `ModeRuns.FourInADayStraddleAReset` | crates/nexacore-agent/src/mode.rs:705-711 | four activations inside a day straddle exactly one reset |
| `RateLimit.KeepsThreePerDayIff` | crates/nexacore-agent/src/mode.rs:627-711 | a successful activation of any run that kept three per 24 hours keeps it if and only if the counter after the reset check, plus the activations of the window before that are less than a day old, is below three |
| `RateLimit.RunKeepsThreePerDayIff` | crates/nexacore-agent/src/mode.rs:627-711 | a run keeps three per 24 hours if and only if each of its successful activations met that condition |
| `RateLimit.SpacedResetsKeepLimit` | crates/nexacore-agent/src/mode.rs:705-711 | a run whose resets each come a day after the last activation of the window before keeps three per 24 hours |
| `ModeRuns.SixInSixMinutes` | crates/nexacore-agent/src/mode.rs:705-711 | a run with six activations in less than six minutes |
| `ModeRuns.RecoveryIsTimeBounded` | crates/nexacore-agent/src/mode.rs:548-563 | in every run, whatever outside calls the session manager saw, the mode reads EmergencyRecovery only before an expiry at most 60 minutes after the reading that set it |
| `ModeRuns.RecoveryLeavesThroughHighRisk` | crates/nexacore-agent/src/mode.rs:548-598 | a run that was in EmergencyRecovery and ends in Standard was in HighRisk in between |
| `ModeRuns.QuietRunInStep` | crates/nexacore-agent/src/mode.rs:548-656 | with one reading per call and no outside calls, a session is open exactly while the mode is EmergencyRecovery, with the same expiry |
| `ModeRuns.QuietActivationNeverBlocked` | crates/nexacore-agent/src/mode.rs:627-656 | in such runs an activation fails only outside HighRisk or on the rate limit |
| `ModeRuns.StrandedIff` | crates/nexacore-agent/src/mode.rs:548-563 | leaving recovery leaves the session open if and only if the two readings fall on either side of the two expiries |
| `ModeRuns.StrandedForGood` | crates/nexacore-agent/src/mode.rs:627-656 | such a session blocks every later activation of the run unless an outside caller closes it |
| `ModeRuns.StrandedRun` | crates/nexacore-agent/src/mode.rs:548-563 | a run with no outside call that ends so, with readings two nanoseconds apart |
| `ModeSteps.CurrentModeIff` | crates/nexacore-agent/src/mode.rs:548-563 | from recovery the reading is EmergencyRecovery with nothing changed if and only if no active session has run out at the first reading and the expiry has not come at the second; otherwise HighRisk, with the exact new state |
| `ModeSteps.RecoveryLasts` | crates/nexacore-agent/src/mode.rs:548-656 | in every run, after a successful activation for one to sixty minutes and with no outside call, every reading before that time is up gives EmergencyRecovery and changes nothing |
| `ModeSteps.ActivationIff` | crates/nexacore-agent/src/mode.rs:627-711 | success and each refusal of an activation if and only if its own condition on mode, window, count and open session |
| `ModeSteps.ActivationState` | crates/nexacore-agent/src/mode.rs:627-711 | the state it leaves: window, count, session and expiry, with the duration kept within one to sixty minutes |
| `ModeSteps.ActivateIff` | crates/nexacore-agent/src/mode.rs:231-259 | success and each refusal of the session manager, with the session opened |
| `ModeSteps.FinalizeCloses` | crates/nexacore-agent/src/mode.rs:453-470 | the summary and the retained session of a closed session, with the whole seconds it lasted |
| `ModeSteps.CheckExpiryIff` | crates/nexacore-agent/src/mode.rs:348-358 | a session is closed if and only if it is active and has run out |
| `ModeSteps.ClampKeeps` | crates/nexacore-agent/src/mode.rs:642-645 | durations from one to sixty minutes are kept, others moved to the nearer bound |
| `ModeSteps.HighRiskIff` | crates/nexacore-agent/src/mode.rs:571-598 | entering and leaving HighRisk, with both refusals |
| `ModeSteps.NewIsStandard` | crates/nexacore-agent/src/mode.rs:531-541 | a new manager: Standard, fifteen minutes, nothing used |
| `ModeManager.EmergencyRecoveryManager.Activate` | crates/nexacore-agent/src/mode.rs:231-259 | opens a session with the next id, these readings and no actions if and only if none is open and the duration is from 1 to 60 minutes; otherwise changes nothing |
| `ModeManager.EmergencyRecoveryManager.RecordAction` | crates/nexacore-agent/src/mode.rs:305-325 | appends an action with the next id, or returns zero |
| `ModeManager.EmergencyRecoveryManager.FinalizeSession` | crates/nexacore-agent/src/mode.rs:453-470 | archives the current session and retains it for the report |
| `ModeManager.EmergencyRecoveryManager.CheckExpiry` | crates/nexacore-agent/src/mode.rs:348-358 | closes the session, archiving its summary and keeping it for the report, if and only if it is active and has run out |
| `ModeManager.EmergencyRecoveryManager.Deactivate` | crates/nexacore-agent/src/mode.rs:382-385 | finalises early |
| `ModeManager.ModeManager.CurrentMode` | crates/nexacore-agent/src/mode.rs:548-563 | changes nothing outside recovery and nothing while recovery lasts; when its session has run out at the first reading or its expiry has come at the second, and only then, it leaves for HighRisk, closing the session exactly in the first case |
| `ModeManager.ModeManager.ActivateHighRisk` | crates/nexacore-agent/src/mode.rs:571-581 | enters HighRisk except from recovery |
| `ModeManager.ModeManager.DeactivateHighRisk` | crates/nexacore-agent/src/mode.rs:591-598 | returns to Standard from HighRisk only |
| `ModeManager.ModeManager.ActivateEmergencyRecovery` | crates/nexacore-agent/src/mode.rs:627-656 | succeeds if and only if the mode is HighRisk, fewer than three activations are used in the window and no session is open; then it opens one of the clamped duration |
| `ModeManager.ModeManager.ActivateEmergencyRecoveryDefault` | crates/nexacore-agent/src/mode.rs:668-673 | the same with a password and FIDO2 and the configured duration |
| `ModeManager.ModeManager.SetEmergencyDuration` | crates/nexacore-agent/src/mode.rs:680-682 | keeps durations from one to sixty minutes, raises shorter ones to one and lowers longer ones to sixty |
| `ModeManager.ModeManager.constructor` | crates/nexacore-agent/src/mode.rs:531-541 | the initial state of the runs |
| `WorkflowUndo.Run` | crates/nexacore-workflow/src/engine.rs:114-147 | the engine's loop: a malformed workflow never runs, and the report lists what `OutcomeIs` says of every step |
| `WorkflowUndo.OutcomeIs` | crates/nexacore-workflow/src/engine.rs:122-146 | in every run a step is skipped if and only if the run fails fast and an earlier step failed; otherwise it fails if and only if it is refused or its file is missing; the run fails if and only if a step does |
| `WorkflowUndo.ValidateIff` | crates/nexacore-workflow/src/model.rs:175-191 | each defect is reported if and only if it is the first of: empty name, zero schedule, no steps, and the first step with an empty field |
| `WorkflowUndo.ExecIs` | crates/nexacore-workflow/src/model.rs:39-78 | what each action does to every path |
| `WorkflowUndo.InverseWorkflow` | crates/nexacore-agent/src/workflow_undo.rs:64-84 | the inverses of the successful steps, last first, or nothing |
| `WorkflowUndo.InverseOfIs` | crates/nexacore-agent/src/workflow_undo.rs:45-84 | a successful move is undone by the move back, a successful copy by deleting it, anything else by nothing |
| `WorkflowUndo.InversesConcat` | crates/nexacore-agent/src/workflow_undo.rs:64-84 | the inverse of a run in two parts is that of the later part, then that of the earlier |
| `WorkflowUndo.NoInverseIff` | crates/nexacore-agent/src/workflow_undo.rs:64-84 | there is no inverse if and only if no move and no copy succeeded |
| `WorkflowUndo.UndoRestores` | crates/nexacore-agent/src/workflow_undo.rs:45-84 | for every run of reversible steps that overwrote nothing, the inverse steps bring back the initial files |
| `WorkflowUndo.UndoRestoresIff` | crates/nexacore-agent/src/workflow_undo.rs:35-84 | for every run of reversible steps, whatever failed or was skipped, the inverse steps succeed and restore the files if and only if no successful step overwrote a file |
| `WorkflowUndo.EngineRunsAll` | crates/nexacore-workflow/src/engine.rs:114-147 | a replay completes if and only if every step can run in turn, with the same files |
| `WorkflowUndo.InverseValidates` | crates/nexacore-workflow/src/model.rs:175-191 | the inverse of a run of a valid workflow is valid, so the engine accepts it |
| `WorkflowUndo.ReplayRestoresIff` | crates/nexacore-agent/src/workflow_undo.rs:35-84 | run a valid workflow and replay its inverse on the engine: it completes with the initial files if and only if the run overwrote nothing |
| `WorkflowUndo.PlanWorkflowUndo` | crates/nexacore-agent/src/workflow_undo.rs:106-135 | the entry is reversible if and only if no deletion, launch or network request succeeded, and the snapshot is the encoded inverse |
| `WorkflowUndo.MarkedReversibleButLost` | crates/nexacore-agent/src/workflow_undo.rs:95-104 | a move onto an existing file is marked reversible, and undoing it loses that file |
| `UndoWindow.UndoWindow.PruneExpired` | crates/nexacore-agent/src/guidance/undo.rs:173-182 | dropping from the front removes exactly the entries at least 30 seconds old |
| `UndoWindow.UndoWindow.RecordWithSnapshot` | crates/nexacore-agent/src/guidance/undo.rs:122-129 | appends to the unexpired entries |
| `UndoWindow.UndoWindow.UndoLast` | crates/nexacore-agent/src/guidance/undo.rs:161-167 | returns the last recorded entry if and only if it is still inside the window |
| `UndoWindow.RecordThenUndo` | crates/nexacore-agent/src/workflow_undo.rs:142-152 | run, record, undo within 30 seconds and replay the snapshot: a run marked reversible whose inverse encodes is restored if and only if it overwrote nothing; if encoding fails nothing is undone |
| `Privacy.SumSplit` | crates/nexacore-agent/src/privacy.rs:355-360 | the sum over a map does not depend on the order of iteration |
| `Privacy.RunKeeps` | crates/nexacore-agent/src/privacy.rs:342-526 | in every run usage is the ledger sum, each agent's consumption is its own ledger sum even across re-allocation, consumption adds up to usage, and usage and allocation pass the maximum by at most the tolerance |
| `Privacy.LedgerOnlyGrows` | crates/nexacore-agent/src/privacy.rs:440-526 | the ledger of any prefix of a run is a prefix of the ledger |
| `Privacy.RefusedUnchanged` | crates/nexacore-agent/src/privacy.rs:342-526 | a refused charge or allocation changes nothing |
| `Privacy.CheckAgreesWithConsume` | crates/nexacore-agent/src/security.rs:758-809 | the pre-flight check succeeds if and only if charging would, fails with the same kind of error, and with the same figures exactly unless usage is past the maximum |
| `Privacy.ChargeWithinAllocation` | crates/nexacore-agent/src/privacy.rs:440-526 | a charge leaves agent and system at most the tolerance over |
| `Privacy.ChargeSucceedsIff` | crates/nexacore-agent/src/privacy.rs:440-526 | in every run public data is free, and any other charge, priced 0.1, 0.5, 1 or 2, succeeds if and only if the agent is known and the price fits, give or take 2^-52, what the ledger leaves of the maximum and of the agent's grant; each refusal, with its figures, if and only if its own condition |
| `Privacy.ChargeState` | crates/nexacore-agent/src/privacy.rs:440-526 | what a charge adds to usage, consumption and ledger, what it leaves alone and what it returns |
| `Privacy.AllocationSucceedsIff` | crates/nexacore-agent/src/privacy.rs:342-398 | in every run an allocation succeeds if and only if it is not negative and fits the maximum together with the other agents' grants; a new grant keeps what the ledger says the agent spent |
| `Privacy.ReportAddsUp` | crates/nexacore-agent/src/privacy.rs:619-647 | in every run the report's event counts add up to the ledger length and its consumptions to the usage |
| `Privacy.ReportIs` | crates/nexacore-agent/src/privacy.rs:619-647 | in every run the report gives each agent's grant, ledger sum, remainder and number of events |
| `PrivacyAccountant.SumAllocations` | crates/nexacore-agent/src/privacy.rs:355-360 | the loop over the map computes the total allocation in any order |
| `PrivacyAccountant.PrivacyBudgetAccountant.New` | crates/nexacore-agent/src/privacy.rs:303-317 | refuses negative budgets; otherwise the initial state of the runs |
| `PrivacyAccountant.PrivacyBudgetAccountant.AllocateAgent` | crates/nexacore-agent/src/privacy.rs:342-398 | allocates or refuses, keeping consumption and the invariant |
| `PrivacyAccountant.PrivacyBudgetAccountant.Consume` | crates/nexacore-agent/src/privacy.rs:440-526 | charges both budgets and appends to the ledger, or refuses, keeping the invariant |
| `Scope.PathSubsetIff` | crates/nexacore-capability/src/scope.rs:296-310 | the path order is exactly inclusion of the matched paths |
| `Scope.PathMatchesIff` | crates/nexacore-capability/src/scope.rs:296-310 | a pattern ending in the wildcard matches its directory and what lies beneath, any other only itself |
| `Scope.EndpointSubsetIff` | crates/nexacore-capability/src/scope.rs:315-325 | for patterns with a port, the endpoint order is exactly inclusion of the matched endpoints |
| `Scope.SplitPortIff` | crates/nexacore-capability/src/scope.rs:315-325 | host and port are split at the last colon |
| `Scope.EndpointMatchesIff` | crates/nexacore-capability/src/scope.rs:315-325 | a pattern matches its host, any if `*`, with its port, any if `0`; without a colon it matches nothing |
| `Scope.ResourceReflexiveIff` | crates/nexacore-capability/src/scope.rs:212-273 | a resource is a subset of itself if and only if it is not a network pattern without a port |
| `Scope.ResourceTrans` | crates/nexacore-capability/src/scope.rs:212-273 | the resource order is transitive |
| `Scope.CoversSomethingIff` | crates/nexacore-capability/src/scope.rs:212-273 | which resources cover some target: all but network patterns without a port and empty address ranges |
| `Scope.ResourceSubsetIff` | crates/nexacore-capability/src/scope.rs:212-273 | on resources that cover some target, the order is exactly inclusion of the covered targets |
| `Scope.ScopeTrans` | crates/nexacore-capability/src/scope.rs:443-459 | the scope order is transitive |
| `Scope.SubsetAuthorises` | crates/nexacore-capability/src/scope.rs:443-459 | every request a smaller scope authorises, the larger one authorises |
| `Scope.ScopeSubsetIff` | crates/nexacore-capability/src/scope.rs:443-459 | on scopes that authorise some request, the order is exactly inclusion of the authorised requests |
| `Attenuation.ApplyCaveats` | crates/nexacore-capability/src/attenuation.rs:111-117 | the loop is the fold, stopping at the first error |
| `Attenuation.FoldIs` | crates/nexacore-capability/src/attenuation.rs:51-117 | a nonempty sequence succeeds if and only if the resource is comparable with itself and the narrowed window is not inverted; otherwise such a resource reports an inverted window |
| `Attenuation.AttenuationOutcome` | crates/nexacore-capability/src/attenuation.rs:51-117 | the child's window is the intersection of the parent's with all time caveats, its caveats are the parent's followed by the new ones without repetition, and it is a subset of the parent |
| `Attenuation.RecordedInOrder` | crates/nexacore-capability/src/attenuation.rs:87-91 | caveats are recorded once each, in the order of their first application |
| `Attenuation.OrderDoesNotMatter` | crates/nexacore-capability/src/attenuation.rs:105-117 | sequences of the same caveats have the same outcome, up to the order of the list |
| `Attenuation.DefensiveErrorIff` | crates/nexacore-capability/src/attenuation.rs:93-100 | the defensive error is reported if and only if the resource is a network pattern without a port and the first caveat keeps the window open |
| `Attenuation.DefensiveErrorReached` | crates/nexacore-capability/src/attenuation.rs:93-100 | one input that reports it |
| `Attenuation.RestrictIsSound` | crates/nexacore-capability/src/attenuation.rs:126-136 | restriction succeeds if and only if the resource is contained; the child is the parent with that resource and authorises exactly what the parent does and the resource covers |
| `Attenuation.AttenuateLinks` | crates/nexacore-capability/src/attenuation.rs:163-184 | every attenuated token names its parent, carries the folded scope and passes the link check; errors of the fold are passed on; the final guard fires only for no caveats on such a resource |
| `Attenuation.LinkIff` | crates/nexacore-capability/src/attenuation.rs:199-213 | a link holds if and only if the child names the parent's id and its scope is a subset; a wrong id is reported first |
| `Attenuation.ChainOnlyShrinks` | crates/nexacore-capability/src/attenuation.rs:199-213 | along any chain of verified links every later scope is a subset of every earlier one and authorises nothing more |
| `Hash.CtEq` | crates/nexacore-auth/src/hash.rs:99-108 | the accumulated difference is zero if and only if the slices are equal |
| `Hash.Verify` | crates/nexacore-auth/src/hash.rs:90-96 | succeeds if and only if the schemes and the digests agree |
| `Accounts.NextUidFreeIff` | crates/nexacore-auth/src/store.rs:163-174 | the next uid is the lowest free one from 1000 unless that range is full, and then the largest uid |
| `Accounts.ValidUsernameIff` | crates/nexacore-auth/src/store.rs:33-43 | a name is valid if and only if it has 1 to 32 lower-case letters, digits, underscores and hyphens and starts with a letter or underscore |
| `Accounts.CreateSucceedsIff` | crates/nexacore-auth/src/store.rs:224-258 | creation and each refusal if and only if its own condition; the account gets the lowest free uid and a record with the application's name, privileges and time, the home `/home/` and its name, the hasher's scheme, the caller's salt followed by the uid's four bytes, and the digest of the password under that salt |
| `Accounts.CreateThenRemove` | crates/nexacore-auth/src/store.rs:193-258 | removing the account just created gives the store back |
| `Accounts.SaltsDiffer` | crates/nexacore-auth/src/store.rs:245-247 | different uids have different effective salts, whatever salts callers pass |
| `AccountRuns.IndexesInverse` | crates/nexacore-auth/src/store.rs:180-258 | in every run of creations, raw inserts and removals the two indexes are inverse to each other |
| `AccountRuns.RecordStays` | crates/nexacore-auth/src/store.rs:180-258 | in every run, until its removal, a created account has exactly that record |
| `AccountRuns.CreatedIsLowestFree` | crates/nexacore-auth/src/store.rs:163-258 | every new uid in a run is the lowest free one from 1000, and creation fails only on a bad or taken name or a full range |
| `AccountRuns.LiveSaltsDistinct` | crates/nexacore-auth/src/store.rs:224-258 | live created accounts have pairwise distinct effective salts and homes |
| `AccountRuns.KeepsAuthenticating` | crates/nexacore-auth/src/auth.rs:163-185 | until removed, a created account passes with exactly the passwords of the same digest, its own among them |
| `AccountRuns.PasswordStackAuthenticates` | crates/nexacore-auth/src/auth.rs:109-139 | so a stack requiring the password authenticates it |
| `AccountRuns.RemovedFails` | crates/nexacore-auth/src/auth.rs:163-185 | after removal the name is unknown and every password fails |
| `UserStore.UserStore.constructor` | crates/nexacore-auth/src/store.rs:119-121 | the empty store |
| `UserStore.UserStore.NextFree` | crates/nexacore-auth/src/store.rs:163-174 | the ascending walk finds the lowest free uid, saturating when the range is full |
| `UserStore.UserStore.Insert` | crates/nexacore-auth/src/store.rs:180-190 | adds to both maps, or refuses a taken uid first and a taken name second |
| `UserStore.UserStore.Remove` | crates/nexacore-auth/src/store.rs:193-197 | removes from both maps and returns the record |
| `UserStore.UserStore.CreateAccount` | crates/nexacore-auth/src/store.rs:224-258 | the whole creation in place, with its errors in order, adding exactly the record `CreateSucceedsIff` describes under the lowest free uid, and keeping the indexes inverse |
| `AuthStack.Authenticate` | crates/nexacore-auth/src/auth.rs:109-139 | the early-exit loop authenticates if and only if a sufficient success has no earlier binding failure, or some binding module succeeds and none fails |
| `AuthStack.FailureDenies` | crates/nexacore-auth/src/auth.rs:109-139 | a binding failure with no sufficient success before it denies, whatever follows |
| `AuthStack.RaisingKeepsPass` | crates/nexacore-auth/src/auth.rs:100-139 | raising module results from Failure to Skip to Success never turns a pass into a denial |
| `AuthStack.CheckPasswordIff` | crates/nexacore-auth/src/auth.rs:163-185 | the password module succeeds if and only if the name is known and its credential has the hasher's scheme and the password's digest; otherwise it fails and never skips |

## Left out

- Allocator clients: they free only live blocks, with their own layout, and write only inside live blocks, as `GlobalAlloc` demands; concurrent use is not modelled because the display process is single-threaded.
- GptTheorems.Reproducible: is about well-formed images, whose two headers and two arrays do not overlap; of images that break this only the reading of headers, the refusals and the passes over one table are characterised.
- Display compositing: window stacking, shadows and rounding are one scene function that a composite redraws in the damaged rectangles; window operations are assumed to damage every pixel they change.
- Desktop.Desktop.Present: requires screens of at least 425 rows and more than 14 columns, where the chrome zones are apart and the panel shows, and buffers of the size used at construction; `AlwaysWholeIff` says on which other screens its passes still leave the zones fresh.
- Desktop.Desktop.constructor: the same screens.
- Desktop.Desktop.PaintMenu: the chrome renderers are uninterpreted functions of model, tokens and backdrop that keep the strip's length; the clock shown is the one of the last repaint.
- Launcher overlay, mouse cursor and font drawing of the desktop.
- Wall-clock timestamps, serialisation, tracing and async wrappers of the agent crate; counters are unbounded.
- Workflow executors: a file tree is a map from paths to contents, a move or copy fails only on a missing source or when refused from outside, and failed or skipped steps have no effect.
- UndoWindow.RecordThenUndo: the encoder may fail, but what it encodes is assumed nonempty and inverted by the decoder.
- Privacy: epsilon is a real number, so rounding, infinities and not-a-number inputs of the 64-bit floats are not modelled.
- BLAKE3, Argon2id, Ed25519 and token encoding: the hasher is an abstract function, tokens carry no signature, and timing claims are not expressible.
- Palette segmentation, keyword classifiers, policy tables, the helper service, sandbox configuration and drivers: easy members or user interface.
