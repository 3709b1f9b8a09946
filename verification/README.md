# zeroboot, verified

zeroboot is the initramfs step that looks at a node's drives, decides whose each is, and prints the
decision for `init`: boot off a drive that is the node's own, offer a blank one to be formatted, or ask
the appliance. This project models that decision in Dafny and proves what it promises, from single bytes
on a drive up to whole histories of disks that move between machines.

| file | what it is about |
|---|---|
| `Text.dfy` | trimming, lines and words as Rust's `str` has them |
| `Utf8.dfy` | bytes, and those that are text |
| `Claims.dfy` | the claim file: written, and read back |
| `Clock.dfy` | the clock as RFC 3339 text |
| `Shell.dfy` | `KEY='value'` output, against the shell's token rules |
| `Esp.dfy` | reading an ESP, and writing a claim on it |
| `BootImage.dfy` | the ESP `boot-image` writes, and how its reader sees it |
| `Layout.dfy` | where `boot-image` puts partitions |
| `Image.dfy` | the image written in place, and its partitions as ranges of it |
| `Scan.dfy` | reading a drive: what is covered, what can hide |
| `Survey.dfy` | sorting and filtering drives, and the intent |
| `Probe.dfy` | the verdict on one drive |
| `Decision.dfy` | the boot and the claim command, as exit code, output and disks afterwards |
| `Verdicts.dfy` | verdicts and offer in terms of the disk and the bay |
| `Reboot.dfy` | booting again on disks the first boot claimed |
| `Ownership.dfy` | moves, boots, claims and flow-overs over whole runs |
| `EndToEnd.dfy` | a disk just built: its first boot, its second, and another machine's |

Each program that changes state is a method (on `Scan.File`, `Esp.Volume` or `Decision.Chassis` where the
source changes something that outlives the call) proved equal to a function of its inputs and the state
before; the theorems are about those functions. `dafny verify dfyconfig.toml` checks everything.

## Where the code and what is said about it differ

The model follows the code in each case.

- `read_file` gives up on contents that are not UTF-8 (`crates/zeroboot/src/esp.rs:275-280`), and the
  presence of kernel and initramfs is checked with it (`crates/zeroboot/src/esp.rs:127-133`). So a disk
  `boot-image` laid out counts as bootable if and only if both files are text
  (`BootImage.BuiltDiskReadsBack`, `EndToEnd.BuiltDiskBootsExactlyWhenText`), and one byte that UTF-8 never
  uses, C0, C1 or F5 to FF, anywhere in either is enough for it not to
  (`BootImage.BinaryKernelsDoNotCount`, `BootImage.BinaryInitramfsDoesNotCount`).
- The comment on `available` says largest first (`crates/zeroboot/src/survey.rs:192-193`); the code puts
  solid state first and then the larger (`crates/zeroboot/src/survey.rs:197-201`). `Survey.SmallerIsOffered`
  gives the drives for which the largest is not offered, `Survey.LargestIsOffered` says exactly when it is.
- Claims are dated so that histories can be read in order (`crates/zeroboot/src/esp.rs:65-66`). As text
  they sort by time up to the year 9999 and not beyond (`Clock.TextOrderHolds`).
- "A claim naming somebody else is decisive" (`crates/zeroboot/src/probe.rs:283-288`) holds of claims that
  are read. An ESP that fails to read counts as none (`crates/zeroboot/src/probe.rs:181`), a system slab
  without an ESP boots (`crates/zeroboot/src/survey.rs:143-148`), and the boot then writes its own claim over
  the one it did not see (`crates/zeroboot/src/main.rs:324-333`). `Ownership.HoldersLastExactly` and
  `Ownership.AnotherTakesExactly` say, by what there is to see before, which steps take a disk from its holder, and
  `EndToEnd.AMissedClaimHasTwoOwners` gives the run in which one failed reading does.
- One disk, one owner holds over runs under conditions the code does not enforce: claims are read, claiming
  is on, the medium takes the write, the ESP mounts, names can be written down, nobody forces. `Ownership`
  states them as hypotheses; `Ownership.BootedDiskIsNamedExactly` says when a boot leaves the disk named for
  its machine, and `Ownership.UnwrittenClaimsBindNobody`, `Ownership.NamelessMachinesIgnoreClaims` and
  `Reboot.RebootIsTheSameExactly` what happens otherwise.

## What is taken as given

- A device is its bytes. Reads may always come short; on an honest device one that succeeds delivers
  something until the end, and on a steady one all succeed. `Scan.File` covers all devices, `Probe.Judge`
  honest ones, and from `Decision` on devices are honest and steady, while the reading of an ESP may fail or
  lose any of its files on each boot.
- Names under `/sys/block`, sizes, flags, transports, partitions in name order, the firmware's serial and
  what `stormblock slab list` prints are inputs.
- An ESP is a map from paths to bytes with a directory listing, and is found through a GPT, so a disk
  that has one shows a GPT header (`Ownership.TableShows`).
- A claim write succeeds as a unit or fails and leaves the ESP as it was.
- The raw bytes the probes read and the files on the ESP are separate parts of a disk; writing the claim
  file does not disturb what the probes see.

## Model

| member | source | states |
|---|---|---|
| `Ownership.SingleOwner` | crates/zeroboot/src/main.rs:258-284 | In every run of moves, proper boots and claim commands, and flow-overs, from a start where every ESP can be mounted, two machines that ever booted the same disk with an ESP have the same identity; proper means that claims that are there get read, claiming is on, the medium takes the write, names can be written down and nothing is forced |
| `Ownership.BootIsRecorded` | crates/zeroboot/src/main.rs:258-290 | The history records a boot if and only if a machine with a name booted a disk with an ESP, and an offer if and only if one was made |
| `Ownership.ClaimedDisksAreLeftAlone` | crates/zeroboot/src/probe.rs:289-296 | From the moment a disk is claimed, as long as every step reads its claim and none is forced, each boot of any other machine that says who it is neither boots, offers nor writes that disk, wherever it is by then, and judges it the claimant's where only the claim speaks against it |
| `Ownership.ClaimsLast` | crates/zeroboot/src/main.rs:401-415 | As long as every step that looks at the disk reads its claim and none is forced, the claimed disk stays as it is, through failed writes, nameless machines and ESPs that lose other files |
| `Ownership.NodesGetTheirDisksBack` | crates/zeroboot/src/main.rs:258-284 | A node gets its disk back: after any such run since it booted off a disk that then carried its name, a machine of that name given the disk alone, in any local bay, boots the same slab and volume off it |
| `Ownership.OwnDiskBootsAnywhere` | crates/zeroboot/src/main.rs:258-284 | What a boot that left the disk named for its machine did, that machine does again in any local bay |
| `Ownership.HoldersLastExactly` | crates/zeroboot/src/main.rs:322-339 | In every run whatever, forced and misread steps included, a disk stays its holder's throughout if and only if no step overwrites, told by what there is to see before the step: a boot that can write, under a name that displaces the holder's, of a machine whose first drive to boot is that disk with its claim unread; or a claim command that can write, under such a name, and did not read the claim or is forced |
| `Ownership.StepKeepsHolderExactly` | crates/zeroboot/src/probe.rs:181 | The same of one step |
| `Ownership.BootKeepsHolderExactly` | crates/zeroboot/src/main.rs:323-333 | A boot leaves a claimed disk to its holder if and only if it does not take it, told by the survey, the readings and the name before the boot |
| `Ownership.AnotherTakesExactly` | crates/zeroboot/src/main.rs:323-333 | For names that can be written down: the holder loses the disk if and only if the drives are listed, claiming is on, the medium takes the write, the machine is another, and the first drive to boot in its survey is that disk with its claim unread |
| `Ownership.BootWritesOverExactly` | crates/zeroboot/src/main.rs:322-333 | What a boot makes of a claimed disk: this machine's claim on it, if and only if it can write and missed the claim on its first drive to boot, that disk, and otherwise the disk as it was |
| `Decision.BootsFromExactly` | crates/zeroboot/src/survey.rs:211-221 | A boot is from bay i if and only if the drives are listed and drive i is ours and boots, no such drive outranks it, and none before it is as good |
| `Decision.OffersFromSurvey` | crates/zeroboot/src/survey.rs:234-235 | A boot offers bay i if and only if the drives are listed, none is Mine, drive i is blank, none that is blank is better, and every blank one before it is worse |
| `Verdicts.OffersExactly` | crates/zeroboot/src/probe.rs:168-190 | The same over the disks themselves: by each disk's own kind and size, and its own bytes |
| `Verdicts.BlankOnDisk` | crates/zeroboot/src/probe.rs:472-512 | Blank, in bytes: a local disk that stays, reads and has no partitions is blank if and only if it is all zero below 1073741824 bytes, and otherwise zero in its first 67108864, in 65536 from every 67108864 + k * 1073741824 that fit, and in its last 1048576 |
| `Verdicts.MineOnDisk` | crates/zeroboot/src/probe.rs:238-302 | Mine, with which id, role and device, if and only if the first of the disk and its partitions that starts with STRMSLAB is named so, local, identified and not seen to be another's; the device is the bay's path for the whole disk |
| `Verdicts.AnothersOnDisk` | crates/zeroboot/src/probe.rs:274-296 | AnotherNode's, with which id and owner, if and only if the slab is named and came over that network, or carries a claim that was read and names that other |
| `Verdicts.UnreadableOnDisk` | crates/zeroboot/src/probe.rs:215-250 | Unreadable if and only if there is no medium, or the disk stays and does not read |
| `Verdicts.UnnamedOnDisk` | crates/zeroboot/src/probe.rs:222-274 | Removable, a slab with no binary to name it, a slab stormblock would not name: each if and only if it is that |
| `Verdicts.ForeignOnDisk` | crates/zeroboot/src/probe.rs:304-335 | A disk without a slab is judged by transport, partitions, head, tail and scan, in that order |
| `Survey.FirstIsChosen` | crates/zeroboot/src/survey.rs:176-203 | For both orders: the drive chosen is the one of its kind that none beats and that beats all of the kind before it |
| `Survey.IntentBootsFirst` | crates/zeroboot/src/survey.rs:143-148 | The drive booted off starts the node, by its ESP or by a system slab where no ESP was found; it is a system slab's if any that starts the node is; and no other such comes before it |
| `Survey.IntentBootsExactly` | crates/zeroboot/src/survey.rs:143-148 | A node boots if and only if it owns a drive whose ESP boots, or one with no ESP found and a slab whose role is system |
| `Survey.DataSlabsDoNotBoot` | crates/zeroboot/src/survey.rs:143-148 | A node whose drives have no ESP and no system slab neither boots nor takes another drive |
| `Survey.IntentTakesFirst` | crates/zeroboot/src/survey.rs:194-203 | With nothing of its own a node takes the blank drive that none betters, solid state before spinning and then by size, the first seen of equals |
| `Ownership.CommandOnDisk` | crates/zeroboot/src/main.rs:393-418 | A claim command takes a disk from its holder if and only if its name displaces the holder's, the ESP is read, the write is taken, and the claim file either went unread or was overridden by force |
| `Ownership.StepKeepsClaims` | crates/zeroboot/src/main.rs:322-326 | Every single step that reads the claim and is not forced leaves the disk as it was |
| `Ownership.StepKeepsOwned` | crates/zeroboot/src/main.rs:322-339 | Inductive step of single ownership: after each proper step every recorded boot is of a disk whose claim names the machine that booted it |
| `Ownership.StepKeepsInv` | crates/zeroboot/src/survey.rs:51-53 | Every step whatever keeps the machines plugged in, the partition tables of disks with an ESP in place, and offered disks without an ESP |
| `Ownership.RunKeepsInv` | crates/zeroboot/src/survey.rs:211-244 | The step invariant holds in every world of every run |
| `Ownership.RunKeepsOwned` | crates/zeroboot/src/main.rs:258-284 | Single ownership holds in every world of every proper run |
| `Ownership.BootTouchesItsDiskOnly` | crates/zeroboot/src/main.rs:322-333 | A boot changes no disk but the one it boots from, and that one only when the machine says who it is and the disk was unclaimed or its claim was not read |
| `Ownership.NamelessMachinesChangeNothing` | crates/zeroboot/src/main.rs:327-331 | A machine with no identity changes no disk by booting, nor by `claim` without `--node` |
| `Ownership.BootedDiskIsNamedExactly` | crates/zeroboot/src/main.rs:322-339 | After a boot by an identified machine the disk it booted is named for it if and only if it was so before, or it has an ESP, claiming is on, the medium takes the write and the name can be written down; how the ESP was read makes no difference |
| `Ownership.BootedDiskIsClaimed` | crates/zeroboot/src/main.rs:332-339 | So after a proper boot a disk with an ESP always is |
| `Ownership.OthersLeaveItAlone` | crates/zeroboot/src/probe.rs:289-296 | The one-boot form: a disk claimed by another, its claim read, is not booted, not offered, not written, and judged held by another |
| `Ownership.OthersVerdict` | crates/zeroboot/src/probe.rs:278-296 | To an identified machine that reads its claim, a disk claimed by another is neither Mine nor Blank, and is AnotherNode's, with that owner, exactly where it would have been Mine |
| `Ownership.OfferedHasNoEsp` | crates/zeroboot/src/probe.rs:331-335 | A drive offered for flow-over never has an ESP, so formatting it never erases a claim |
| `Ownership.WithoutClaimsAllSeeTheSame` | crates/zeroboot/src/probe.rs:284-289 | Where no claim is seen, two machines judge the same drives the same |
| `Ownership.UnclaimedDisksAreAnybodys` | crates/zeroboot/src/probe.rs:284-302 | A disk whose claim is not seen is judged Mine, with the same slab and just as bootable, by every machine in every bay |
| `Ownership.UnwrittenClaimsBindNobody` | crates/zeroboot/src/main.rs:333-338 | Why the writes are a hypothesis: a boot off an unclaimed disk that writes no claim leaves a disk that any machine, in any bay, boots into the same slab and volume |
| `Ownership.NamelessMachinesIgnoreClaims` | crates/zeroboot/src/probe.rs:284-291 | Why identity is a hypothesis: a machine that will not say who it is sees every drive as if nobody had claimed it |
| `Reboot.RebootIsTheSame` | crates/zeroboot/src/main.rs:258-284 | A node never locks itself out: after a boot off a local drive, claimed or not, the second boot on the resulting disks, its ESPs read alike, has the same exit code, pairs and bay; and it writes if and only if it can, and there was no claim to see before and the first boot wrote none or none that is read |
| `Reboot.EveryRebootIsSilent` | crates/zeroboot/src/main.rs:322-326 | And however many boots follow leave the disks alone, if none is one that would write |
| `Reboot.EveryRebootIsTheSame` | crates/zeroboot/src/main.rs:258-284 | However many boots come between, whatever they write, the last has the same exit code, pairs and bay as the first |
| `Reboot.RebootIsTheSameExactly` | crates/zeroboot/src/probe.rs:91-95 | When the first boot wrote a claim, the second repeats it and writes nothing if and only if the identity is non-empty, trimmed and free of newlines, and the claim file is read |
| `Reboot.MisreadClaim` | crates/zeroboot/src/esp.rs:70-82 | A name that cannot be written down reads back as no claim, or as another node's, never as the writer's |
| `Reboot.ClaimWritten` | crates/zeroboot/src/esp.rs:159-178 | A disk a name has been written on names it if and only if the name can be written down |
| `Reboot.OwnClaimChangesNoView` | crates/zeroboot/src/esp.rs:159-178 | Claiming a disk that boots as it was found changes nothing of how the claimant sees it but the claim, however much of the ESP gets read |
| `Reboot.IntentIgnoresClaims` | crates/zeroboot/src/survey.rs:211-244 | The intent does not depend on what claims the drives' reports carry, except through the verdicts |
| `Reboot.BootWritesOneClaim` | crates/zeroboot/src/main.rs:322-339 | A boot writes if and only if it boots off a drive with claiming on, a medium that takes it, a name, and an ESP on which it saw no claim; what it writes is its claim on that disk, and no other disk changes |
| `Reboot.BootedDiskBoots` | crates/zeroboot/src/survey.rs:143-148 | What a boot boots from is judged Mine, boots by its ESP if one was found, and showed no claim by another |
| `Reboot.SurveyAfterOwnClaim` | crates/zeroboot/src/main.rs:332-333 | After a node has claimed a disk its survey is the same, claims apart, in every bay |
| `Reboot.SameViewSameBoot` | crates/zeroboot/src/main.rs:258-284 | Two sets of disks that look the same, claims apart, are booted the same way |
| `Reboot.TimesAreCanonical` | crates/zeroboot/src/main.rs:447-454 | The time as text is always fit for a claim, so a claim is canonical exactly when its node is |
| `Reboot.ClaimCommandClaims` | crates/zeroboot/src/main.rs:384-421 | For any name: `claim` succeeds if and only if the ESP is read and the disk is seen to be the claimant's or the write is allowed and taken; then the disk names the claimant if and only if the name can be written down, and claiming again, forced or not, changes nothing while the claim is read |
| `Decision.InitContract` | crates/zeroboot/src/main.rs:237-319 | For every machine: exit code 0, 1, 2 if and only if ZB_ACTION is boot-local, error, ask-appliance; ZB_REASON carries the reason unless the node boots; ZB_TAKEABLE is non-empty if and only if a drive is offered, and then it is the path of exactly one bay, whose drive is safe to take; and of a boot, ZB_DRIVE is the bay's path, ZB_SLAB and ZB_SLAB_ID the verdict's device and id, ZB_VOLUME what the ESP names or nothing, on a drive whose ESP boots or, where none was found, whose slab is a system slab |
| `Decision.ShellContract` | crates/zeroboot/src/main.rs:342-358 | The same of the variables the shell is left with once it has evaluated the output: each is the value sent with its line ends as blanks, and that very value if and only if it has none |
| `Decision.OutputEvaluates` | crates/zeroboot/src/main.rs:342-358 | Whatever the drives and the reason say, `eval "$(zeroboot boot)"` assigns exactly the boot's variables, in order, and does nothing else |
| `Decision.OfferedIsSafe` | crates/zeroboot/src/main.rs:288-290 | An offer names one bay; its drive is safe to take, is judged Blank, and the pairs carry its path |
| `Decision.BootedFrom` | crates/zeroboot/src/main.rs:259-283 | A boot off a local drive finds by path the very drive the intent chose, and prints that drive's slab and volume |
| `Decision.PathFindsDrive` | crates/zeroboot/src/main.rs:260 | With one drive a path, looking a drive up by its path finds it |
| `Decision.IntentNamesDrive` | crates/zeroboot/src/survey.rs:211-234 | The drive an intent is about is one surveyed, and is Mine and boots, or is Blank on a machine with nothing Mine |
| `Decision.Chassis.Boot` | crates/zeroboot/src/main.rs:237-300 | The boot as state: code, disks afterwards and text appended to standard output are those of the specification |
| `Decision.Chassis.Act` | crates/zeroboot/src/main.rs:258-299 | Each intent leads to its branch, and only booting may write |
| `Decision.Chassis.BootLocal` | crates/zeroboot/src/main.rs:259-283 | Volume looked up by path, claim written where none was seen and one can be, five pairs printed, code 0 |
| `Decision.Chassis.ClaimOnBoot` | crates/zeroboot/src/main.rs:322-339 | Writes nothing when a claim was seen, the machine is nameless, or the write fails; otherwise one claim, on that disk, whether or not there was one that went unseen |
| `Decision.Chassis.ReadEsp` | crates/zeroboot/src/probe.rs:181 | What was found on an ESP, a reading that fails finding none |
| `Decision.Chassis.ClaimCommand` | crates/zeroboot/src/main.rs:384-421 | Success and the disk afterwards are those of the specification; refused or failed, every disk is as it was |
| `Decision.Chassis.WriteClaimIn` | crates/zeroboot/src/esp.rs:159-178 | Writes one disk's ESP when it can be mounted and takes the write, and nothing otherwise |
| `Decision.Chassis.SurveyDrives` | crates/zeroboot/src/probe.rs:131-138 | One judged drive a bay, in bay order, each with what its own reading of the ESP found |
| `Probe.BlankExactly` | crates/zeroboot/src/probe.rs:202-336 | Blank if and only if the size is not zero and the drive is not removable, came over no network, has no partitions, is not empty, and every covered byte is zero; no signature table enters into it |
| `Probe.GptIsNeverBlank` | crates/zeroboot/src/probe.rs:324-335 | A drive with a GPT header at LBA 1 or in the last block is never Blank, at any length and with any contents |
| `Probe.MineExactly` | crates/zeroboot/src/probe.rs:242-302 | Mine if and only if present, not removable, local, readable, with a stormblock binary, not claimed by another that can be checked, and some node bears a slab stormblock names with no slab before it |
| `Probe.VerdictMoves` | crates/zeroboot/src/probe.rs:242-302 | Where no other's claim is seen, a local drive is Mine, with the same slab and role, wherever it is plugged in and for whomever |
| `Probe.Judge` | crates/zeroboot/src/probe.rs:202-336 | With reads that succeed, however short, the verdict of the specification for every device; with reads that fail anywhere, never Blank unless the specification says Blank, and never Mine without a slab, a local drive and no other's claim behind it |
| `Probe.FirstSlabIsFirst` | crates/zeroboot/src/probe.rs:242-254 | The slab reported is on the first node that bears one, and none is reported when none does |
| `Probe.EndsAreCovered` | crates/zeroboot/src/probe.rs:444-455 | The head and tail that are sniffed lie inside what the scan covers |
| `Probe.ZerosHaveNoSignature` | crates/zeroboot/src/probe.rs:534-580 | No rule of the signature table matches a head of zeros |
| `Probe.ZerosHaveNoTailSignature` | crates/zeroboot/src/probe.rs:429-441 | No tail signature matches a tail of zeros |
| `Probe.FirstRuleIsFirst` | crates/zeroboot/src/probe.rs:551-579 | The name given is that of the first rule that matches, and one is given whenever any matches |
| `Probe.GptIsNamed` | crates/zeroboot/src/probe.rs:535-537 | A primary GPT is reported as such, before anything else but a slab |
| `Probe.SignatureByMark` | crates/zeroboot/src/probe.rs:534-580 | The name is that of the first mark on the head, all 23 written out as text and decimal offsets |
| `Probe.TailByMark` | crates/zeroboot/src/probe.rs:429-441 | The end is named by a GPT header 512 bytes before it, or else by an md mark at a multiple of 4096 |
| `Probe.SlabLineReadsBack` | crates/zeroboot/src/probe.rs:602-618 | The line stormblock prints for a slab yields its 36-character id and its role, whatever follows |
| `Probe.OnlyUuidsNameSlabs` | crates/zeroboot/src/probe.rs:602-618 | A line names a slab if and only if 36 characters of hexadecimal and dashes, and no more, stand right behind the words; the role is what stands behind role= up to a comma or parenthesis, trimmed, or unknown |
| `Probe.IdentityIsCanonical` | crates/zeroboot/src/probe.rs:91-95 | An identity from firmware can stand in a claim if and only if it has no newline inside, and is never one of the placeholders |
| `Probe.IdentityExactly` | crates/zeroboot/src/probe.rs:78-95 | Of a serial, trimmed, the identity is that text, unless it is empty or one of the seven placeholders in any case |
| `Scan.ScanIsExact` | crates/zeroboot/src/probe.rs:472-512 | The scan finds nothing if and only if every covered byte is zero, for every length and content |
| `Scan.ScanFinds` | crates/zeroboot/src/probe.rs:487-508 | An offset found is covered and not zero, and all that is scanned before it is zero |
| `Scan.ScanFindsLeast` | crates/zeroboot/src/probe.rs:487-508 | It is the least covered non-zero offset, unless a sample inside the last megabyte found it |
| `Scan.SmallDevicesAreReadWhole` | crates/zeroboot/src/probe.rs:476-491 | Under one stride the scan is empty if and only if every byte is zero, and otherwise finds the first that is not |
| `Scan.LongRunsAreSeen` | crates/zeroboot/src/probe.rs:493-509 | Any run of more than STRIDE - SAMPLE non-zero bytes, at any offset and across every seam, is found |
| `Scan.LongRunsAreCovered` | crates/zeroboot/src/probe.rs:493-509 | Every such run contains a covered byte |
| `Scan.NextCovered` | crates/zeroboot/src/probe.rs:495-509 | Behind a sample, a covered byte comes no later than the next sample's start |
| `Scan.MissedRunsExist` | crates/zeroboot/src/probe.rs:495-509 | The bound is tight: a run of STRIDE - SAMPLE can be missed if and only if the device is at least DEEP + STRIDE + TAIL long |
| `Scan.AFilledGapLooksBlank` | crates/zeroboot/src/probe.rs:493-511 | And such a device, with that whole run non-zero, scans as empty |
| `Scan.LeastIsLeast` | crates/zeroboot/src/probe.rs:487-489 | The byte-by-byte reference finds the first non-zero byte of its zone and nothing else |
| `Scan.File.FirstNonzero` | crates/zeroboot/src/probe.rs:472-512 | With honest reads of any shortness the three phases fail, by a read that failed, or return the reference scan; with reads that come back empty early they still end, report only covered non-zero offsets, take at most the counted samples, and deliver at most front + samples + last megabyte |
| `Scan.File.ReadWhole` | crates/zeroboot/src/probe.rs:481-491 | The front, in chunks of at most a megabyte, first non-zero byte or none |
| `Scan.File.ReadGrain` | crates/zeroboot/src/probe.rs:495-502 | The grain: exactly the counted samples when none hits, and the least front offset on an honest device |
| `Scan.File.ReadBack` | crates/zeroboot/src/probe.rs:504-511 | The last megabyte, when it is not in the front already |
| `Scan.File.Region` | crates/zeroboot/src/probe.rs:514-526 | A prefix of the region asked for, all of it when reads are honest and the device reaches that far, ending even when reads come back empty |
| `Scan.File.Sniff` | crates/zeroboot/src/probe.rs:444-455 | The first megabyte, and the last when the device has more than two; an error when nothing can be read |
| `Scan.SamplesTaken` | crates/zeroboot/src/probe.rs:495-502 | The grain loop ends after exactly (len - DEEP - SAMPLE) / STRIDE + 1 samples, and after none under one stride |
| `Scan.CoveredInFigures` | crates/zeroboot/src/probe.rs:472-509 | All that is covered is zero if and only if the figures in bytes say so |
| `Scan.DetectionInFigures` | crates/zeroboot/src/probe.rs:472-509 | 1073676289 non-zero bytes in a row are always seen, and one fewer on every device below 1141899264 bytes |
| `Scan.BudgetInFigures` | crates/zeroboot/src/probe.rs:481-509 | What a scan may read, in bytes |
| `Scan.EndsInFigures` | crates/zeroboot/src/probe.rs:444-455 | What is sniffed, in bytes: the first 1048576, and the last 1048576 of more than 2097152 |
| `Scan.Position` | crates/zeroboot/src/probe.rs:487 | The first non-zero byte of a chunk, or its length |
| `Clock.FromEpoch` | crates/zeroboot/src/main.rs:424-446 | The two loops end, the month index stays in bounds, and the result is a valid Gregorian date and time whose second count is the input |
| `Clock.SecondsOrderStamps` | crates/zeroboot/src/main.rs:424-446 | Second counts order and identify valid times, so that result is the only one |
| `Clock.NowRfc3339` | crates/zeroboot/src/main.rs:424-455 | The text, read by its digits, is a valid date and time whose second count is the one given |
| `Clock.TextSpellsTime` | crates/zeroboot/src/main.rs:447-454 | The text of every valid time reads back as that time, field for field, with the separators of RFC 3339, in every year |
| `Clock.DayNumberByFormula` | crates/zeroboot/src/main.rs:430-446 | The tables of years and months agree on every date with the March-based day formula, which has no table |
| `Clock.TextOrderIsTimeOrder` | crates/zeroboot/src/esp.rs:65-66 | Up to the year 9999 all texts are 20 characters and sort as the times do |
| `Clock.TextOrderHolds` | crates/zeroboot/src/main.rs:447-454 | 9999 is exact: up to a given last year text order is time order if and only if that year is at most 9999 |
| `Clock.TextOrderEndsWith9999` | crates/zeroboot/src/main.rs:447-454 | The first second of the year 10000 sorts before the second it follows |
| `Clock.YearStep` | crates/zeroboot/src/main.rs:431-439 | The year loop's year length is the difference of the closed form with /4, /100 and /400 |
| `Clock.CalendarPeriod` | crates/zeroboot/src/main.rs:432 | The calendar repeats every 400 years of 146097 days |
| `Clock.MonthsFillYear` | crates/zeroboot/src/main.rs:440-441 | The month table sums to the length of the year |
| `Text.WhitespaceByNumber` | crates/zeroboot/src/esp.rs:75 | What is trimmed and split at, by code point |
| `Text.TrimTakesBlanks` | crates/zeroboot/src/esp.rs:75 | Trimming takes the blanks off both ends and not one character more |
| `Text.LineEnds` | crates/zeroboot/src/esp.rs:73 | A line ends at LF or CR LF, and the last keeps all it has |
| `Text.LinesConcat` | crates/zeroboot/src/esp.rs:73 | What ends in a newline is split apart from what follows it |
| `Clock.RenderIsPlain` | crates/zeroboot/src/main.rs:447-454 | The text holds no character that trimming or line splitting could touch |
| `Shell.EvalOfEmitted` | crates/zeroboot/src/main.rs:342-358 | Under the quoting rules of POSIX.1-2017 XCU 2.2.1 and 2.2.2, what is emitted for any names and any values is exactly those assignments, one a line, values whole but for CR and LF turned to spaces |
| `Shell.EvalOfSubstituted` | crates/zeroboot/src/main.rs:341-346 | The same through command substitution, which drops the last newline |
| `Shell.UnquoteQuoted` | crates/zeroboot/src/main.rs:355-358 | A quoted value unquotes to its characters, every one literal, whatever follows |
| `Shell.UnquoteSpliced` | crates/zeroboot/src/main.rs:357 | The splice for an embedded quote leaves and re-enters the quotes without a bare character |
| `Shell.FlatHasNoNewline` | crates/zeroboot/src/main.rs:356 | Character for character the value, with CR and LF as spaces |
| `Shell.Emit` | crates/zeroboot/src/main.rs:342-346 | One line a pair, in order |
| `Claims.RoundTripExactly` | crates/zeroboot/src/esp.rs:70-86 | parse(render(c)) is c if and only if the node is non-empty and both fields are trimmed and newline-free; `=` may stand in either |
| `Claims.ClaimRoundTrip` | crates/zeroboot/src/esp.rs:70-86 | The canonical direction of it |
| `Claims.ParsedIsCanonical` | crates/zeroboot/src/esp.rs:70-82 | Whatever text is parsed, a claim that comes out could have been rendered |
| `Claims.ParseReadsLastLines` | crates/zeroboot/src/esp.rs:73-81 | For every text the claim is what the last `node` line and the last `claimed` line say: no or a blank node line claims nothing, no claimed line leaves the time empty |
| `Claims.BlanksAroundKeys` | crates/zeroboot/src/esp.rs:74-75 | Blanks on either side of a key do not keep a line from being about it |
| `Claims.LastLineExists` | crates/zeroboot/src/esp.rs:73-80 | Every text has a last line about a key, or none about it |
| `Claims.NameIsRead` | crates/zeroboot/src/esp.rs:70-86 | Whatever name and time are written, the node read back is the name as it reads, by its own last line |
| `Claims.NameOnOneLine` | crates/zeroboot/src/esp.rs:70-86 | A name on one line reads back trimmed, and not at all when that leaves nothing |
| `Claims.NameReadsAsItself` | crates/zeroboot/src/esp.rs:70-86 | A name reads back as itself if and only if it is non-empty, trimmed and free of newlines |
| `Claims.DisplacesExactly` | crates/zeroboot/src/esp.rs:70-86 | A name displaces a holder if and only if it reads back as another; for one that can be written down, if and only if it is another |
| `Claims.Parse` | crates/zeroboot/src/esp.rs:70-82 | The line loop computes the specification: last node line, last claimed line |
| `Esp.BootsWhenComplete` | crates/zeroboot/src/esp.rs:118-150 | An ESP boots if and only if the boot loader is there and the first readable loader entry, in directory order, names a kernel and an initramfs that are there and read as text; and if and only if nothing is missing |
| `Esp.ClaimChangesOnlyTheClaim` | crates/zeroboot/src/esp.rs:159-178 | Writing a claim changes what is read back in the claim and nowhere else; what booted still boots, alike, and the rest changes only if the loader entry names the claim file itself |
| `Esp.ClaimFile` | crates/zeroboot/src/esp.rs:84-86 | The claim is written to stormcos/claim, as its two lines, and no other file or directory entry changes |
| `Esp.MissingExactly` | crates/zeroboot/src/esp.rs:119-136 | Each thing that can be missing is reported if and only if it is |
| `Esp.BootSaysHow` | crates/zeroboot/src/esp.rs:141-150 | What boots reports its options, and from them the slab device and the volume by their keys |
| `Esp.FieldExactly` | crates/zeroboot/src/esp.rs:260-264 | A field is what stands behind its key on the first line that starts with it, trimmed, and none if that is empty |
| `Esp.CmdlineValueExactly` | crates/zeroboot/src/esp.rs:283-289 | A value is what stands behind its key in the first word that starts with it, and none if that is empty |
| `Esp.ConfNames` | crates/zeroboot/src/esp.rs:255-258 | A name ends in .conf in any mixture of cases, letter by letter |
| `Esp.SlashesGo` | crates/zeroboot/src/esp.rs:129 | All slashes in front of a path go, and nothing else does |
| `Esp.LowerByLetter` | crates/zeroboot/src/probe.rs:94 | Each of 26 letters is made small and no other character changes |
| `Esp.FirstConfIsFirst` | crates/zeroboot/src/esp.rs:254-272 | The loader entry is the first directory entry that is a readable `.conf` file, and there is one whenever any is |
| `Esp.Volume.Read` | crates/zeroboot/src/esp.rs:113-150 | Claim, boot and missing list are those of the specification, missing items in order |
| `Esp.Volume.LoaderConf` | crates/zeroboot/src/esp.rs:252-273 | The first readable `.conf` in directory order is the entry |
| `Esp.Volume.WriteClaim` | crates/zeroboot/src/esp.rs:159-178 | One file replaced when the medium takes the write, nothing otherwise |
| `BootImage.BuiltDiskReadsBack` | crates/zeroboot/src/esp.rs:127-150 | Of a disk just built the reader finds no claim, misses exactly the kernel or initramfs whose bytes are not UTF-8, and boots if and only if both are; the slab device and volume are the writer's if and only if both are single words |
| `BootImage.CmdlineReadsBack` | crates/zeroboot/src/bootimage.rs:214-249 | For every image store, writable list and extra arguments, newlines and repeated keys included, the loader entry's options give back `<disk>2` and the volume if and only if the disk device has no whitespace and the volume is a non-empty word |
| `BootImage.BinaryKernelsDoNotCount` | crates/zeroboot/src/esp.rs:127-133 | A kernel with one byte C0, C1 or F5 to FF anywhere makes a complete disk count as lacking its kernel |
| `BootImage.BinaryInitramfsDoesNotCount` | crates/zeroboot/src/esp.rs:127-133 | And so does an initramfs |
| `Utf8.TextIsEncoded` | crates/zeroboot/src/esp.rs:279 | Bytes decode if and only if some string encodes to them, and then to that string: `from_utf8` is the inverse of encoding |
| `Utf8.DecodeEncode` | crates/zeroboot/src/esp.rs:175 | What was written as text is read back as the same text, every character |
| `Utf8.EncodeDecode` | crates/zeroboot/src/esp.rs:279 | Bytes that decode are the encoding of what they decode to |
| `Utf8.RefusedByteIsNoText` | crates/zeroboot/src/esp.rs:279 | No bytes that hold C0, C1 or F5 to FF decode |
| `Utf8.AsciiIsText` | crates/zeroboot/src/esp.rs:279 | All ASCII decodes |
| `BootImage.EntryReadsBack` | crates/zeroboot/src/bootimage.rs:181-186 | The entry's linux, initrd and options lines read back as written |
| `BootImage.OptionsWords` | crates/zeroboot/src/esp.rs:282-289 | Blanks, line ends and the keyword around the options hide no word of their first line |
| `BootImage.FirstStrippedAt` | crates/zeroboot/src/esp.rs:260-264 | The first line or word with the prefix decides, in both searches |
| `BootImage.BuildCmdline` | crates/zeroboot/src/bootimage.rs:214-249 | The appended parts, in order and only where given |
| `BootImage.CmdlineWords` | crates/zeroboot/src/bootimage.rs:214-249 | The command line word for word: constant words, slab and volume, then image store, writable list and extra arguments under their own keys |
| `BootImage.JoinedInPieces` | crates/zeroboot/src/bootimage.rs:236-241 | The writable list is one volume:mount a piece, in order, between commas |
| `BootImage.EntryInFull` | crates/zeroboot/src/bootimage.rs:181-186 | The loader entry in full |
| `BootImage.FilesInFull` | crates/zeroboot/src/bootimage.rs:167-186 | The five files of a built ESP, their contents, and no others |
| `BootImage.LayEsp` | crates/zeroboot/src/bootimage.rs:164-186 | File after file, the ESP of the specification |
| `Layout.Build` | crates/zeroboot/src/bootimage.rs:94-138 | From 64 MiB of ESP on and for every slab length: both partitions placed, MiB-aligned, disjoint and clear of both GPT copies; the reader's byte range is the writer's; the payload stays in its partition; and no room is lost |
| `Layout.Place` | crates/zeroboot/src/bootimage.rs:117-128 | The first aligned extent that fits, or none when none does |
| `Layout.PlanIsSound` | crates/zeroboot/src/bootimage.rs:96-102 | The plan for a slab that is not empty, with a MiB at each end and nothing lost between, is sound for every size |
| `Layout.PlanInFigures` | crates/zeroboot/src/bootimage.rs:96-138 | The plan in bytes: the ESP from 1048576 on, the slab behind it, a MiB behind that |
| `Layout.FirstAfterEsp` | crates/zeroboot/src/bootimage.rs:102-128 | The first place for the slab is right behind the ESP |
| `Survey.Mine` | crates/zeroboot/src/survey.rs:176-180 | Filtering and stable sorting comes to the system drives and then the others, each in the order seen |
| `Survey.Available` | crates/zeroboot/src/survey.rs:194-203 | A stable sorted permutation of the blank drives, solid state first and then larger first; empty if and only if none is blank; its head is the first that none beats |
| `Survey.LargestIsOffered` | crates/zeroboot/src/survey.rs:192-201 | The drive offered is a largest blank one if and only if all blank drives spin or a solid-state one is as large as any |
| `Survey.SmallerIsOffered` | crates/zeroboot/src/survey.rs:192-201 | Of a spinning drive and a smaller solid-state one, both blank, the smaller is offered, for every pair of sizes |
| `Survey.Bootable` | crates/zeroboot/src/survey.rs:188-190 | The bootable ones among `mine`, in that order |
| `Survey.Sort` | crates/zeroboot/src/survey.rs:197-201 | Sorted, a permutation, and of each rank the same drives in the same order |
| `Survey.StableSortIsUnique` | crates/zeroboot/src/survey.rs:178 | A stable sort has exactly one outcome |
| `Survey.FirstLeastIsLeast` | crates/zeroboot/src/survey.rs:234-235 | The drive chosen is beaten by none, and is the first seen of its rank |
| `Survey.Decide` | crates/zeroboot/src/survey.rs:211-244 | The branches over `bootable`, `mine` and `available` compute the intent of the specification |
| `Survey.BootableStartsWithLeast` | crates/zeroboot/src/survey.rs:212-221 | The first bootable drive is the first bootable one that no other outranks, and is always Mine |
| `Survey.IntentByContents` | crates/zeroboot/src/survey.rs:211-244 | Each of the four answers if and only if its condition on the set of drives |
| `Survey.ReasonsNameTheDrives` | crates/zeroboot/src/survey.rs:226-243 | With nothing to take the reason has one line for every drive; with drives of ours that do not boot, one for each of those and no other, each saying why |
| `Survey.IntentIgnoresPortOrder` | crates/zeroboot/src/survey.rs:211-244 | The answer is the same under any permutation of the drives |
| `Survey.ChoiceIgnoresPortOrder` | crates/zeroboot/src/survey.rs:211-244 | And so is the drive chosen, when the best candidate is not tied |
| `Survey.ChoiceIgnoresPortOrderExactly` | crates/zeroboot/src/survey.rs:211-244 | The drive chosen is the same under every permutation if and only if the best candidate is not tied |
| `Survey.TiesGoToTheFirstSeen` | crates/zeroboot/src/survey.rs:173-175 | The drive chosen is the one, wherever it stands, that none beats and that beats all seen before it |
| `Survey.IntentDependsOnKept` | crates/zeroboot/src/survey.rs:211-244 | Surveys that agree on Mine and Blank drives agree on the intent, and where there is nothing to take each reports its own lines |
| `Survey.ForeignDrivesOnlyAddLines` | crates/zeroboot/src/survey.rs:234-243 | Foreign, unreadable or other nodes' drives put in one by one at any positions leave the answer alone, and where there was nothing to take their lines appear at those positions and no other line changes |
| `Survey.OursRulesOutTaking` | crates/zeroboot/src/survey.rs:225-233 | One drive that is Mine, anywhere, rules out taking another |
| `EndToEnd.BuiltDiskBootsExactlyWhenText` | crates/zeroboot/src/bootimage.rs:203-211 | A machine whose one drive is a disk just built boots off its second partition, whatever that is called, into its volume if and only if kernel and initramfs are UTF-8; otherwise it asks the appliance and offers nothing |
| `EndToEnd.BuiltDiskKnowsItsNode` | crates/zeroboot/src/main.rs:258-284 | From the image on: the first boot off a built disk with text kernel and initramfs claims it, every later boot of that machine repeats it and writes nothing, and any other identified machine that reads the claim asks the appliance, offers nothing and changes nothing |
| `EndToEnd.AMissedClaimHasTwoOwners` | crates/zeroboot/src/probe.rs:181 | Why reading is a hypothesis: from every start, a run in which a built disk is booted by one machine, moved, and booted by another whose name differs and whose one reading of the ESP fails |
| `EndToEnd.OnlyTheReadingIsAmiss` | crates/zeroboot/src/main.rs:322-339 | In that run all else is proper |
| `EndToEnd.AMissedClaimIsOverwritten` | crates/zeroboot/src/main.rs:324-333 | A machine that does not read another's claim on its one drive takes the claim over if and only if the drive boots as it was found |
| `EndToEnd.UnreadSystemSlabBoots` | crates/zeroboot/src/survey.rs:143-148 | And a node's system slab, on whatever disk, does so in every machine that fails to read its ESP |
| `EndToEnd.FirstBootClaims` | crates/zeroboot/src/main.rs:332-334 | The first boot off a built disk succeeds and writes this machine's claim on it |
| `EndToEnd.TakenElsewhere` | crates/zeroboot/src/probe.rs:289-296 | A partitioned disk another has claimed, alone in a machine that says who it is and reads the claim, makes it ask the appliance with nothing offered and the disk unchanged |
| `EndToEnd.ImageIsLaidOut` | crates/zeroboot/src/bootimage.rs:110-201 | The image laid by the plan makes a disk as built: its partitions, the ranges the plan gives, carry the ESP and a payload that begins as a slab does, and its front shows the GPT |
| `EndToEnd.EverySlabCanBeLaidOut` | crates/zeroboot/src/bootimage.rs:94-138 | For every ESP of at least 64 MiB, every payload that is a slab and every slab stormblock can print there is such an image |
| `Image.LayImage` | crates/zeroboot/src/bootimage.rs:104-201 | Partition table, ESP and slab written in place, in that order, give the image of the specification; a slab that comes short is an error |
| `Image.CopyInto` | crates/zeroboot/src/bootimage.rs:196-199 | A file copied a buffer at a time, however short the reads, lands whole at its offset and nowhere else |
| `Image.ImageHolds` | crates/zeroboot/src/bootimage.rs:110-201 | Nothing that is written overwrites anything written before it |
| `Image.ImageHasItsParts` | crates/zeroboot/src/bootimage.rs:110-201 | The GPT shows at both ends, the ESP's range is the FAT volume, the slab's range begins with the payload |
| `EndToEnd.LaidOutIsMine` | crates/zeroboot/src/probe.rs:234-240 | Such a disk is Mine, with its slab on the second partition |
| `Ownership.OnlyDrive` | crates/zeroboot/src/survey.rs:211-233 | A machine whose one drive is its own boots it if it boots and reports it if not |
| `Ownership.LoneDriveBoots` | crates/zeroboot/src/main.rs:258-284 | And booting it is what the boot does, with that drive's slab and volume printed |

## Left out

- The internals of the `gpt`, `fatfs` and `fscommon` libraries; placing a partition is first fit in the usable range of section 5.3 of the UEFI 2.10 specification.
- FAT's case-insensitive names and its long-name rules: paths are compared as they are written.
- Torn claim writes: `write_claim` truncates before it writes, and a crash between the two is not modelled.
- Device reads that fail in the middle of `judge`, in whole boots and runs: `Probe.Judge` has them, and says they lead to no format and no wrong claim of ownership; `Decision` and `Ownership` take every read of a device that opens to succeed, ESP readings apart.
- Reading a device node while its contents change.
- The `only` list of devices, the name filters of `is_not_a_drive`, `remote_transport`'s marker strings, placeholder lists of other fields: table lookups over sysfs.
- The identity override of the `survey` and `boot` options is a machine's identity for the whole of a run.
- Model, wwid, serial and partition table of a drive, which are reported and decide nothing.
- The wording of verdicts, reasons and progress lines; verdicts and lines are structured values, and the reason's text is a parameter.
- JSON reports, `/dev/kmsg`, command-line parsing, `print_survey` and `human_size`.
- Shell values with a NUL in them, which no process argument or device string can carry, and names outside the printed keys.
- `build`'s checks that its inputs exist and its output does not, and how the GPT, the protective MBR and the FAT volume come about as bytes: `Image` takes them as given and writes them; the files on the ESP stand beside the FAT bytes.
- Sizes beyond 64 bits in `build` and `first_nonzero`: integers are unbounded here.
- What the flow-over writes, beyond its leaving no ESP; whether a system slab holds the volume it should.
- The shell scripts, manifests and Terraform under `scripts` and `deploy`.
