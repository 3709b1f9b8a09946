/** The ESP of a drive, read back: whose the drive is, and whether it boots. */
module Esp {
  import opened Text
  import opened Utf8
  import opened Claims

  datatype DirEntry = DirEntry(name: string, isDir: bool)

  /** A mounted ESP: its files by path, and what iterating /loader/entries yields, in directory order
      (None when it cannot be opened). */
  datatype Fs = Fs(files: map<string, Bytes>, entries: Option<seq<DirEntry>>)

  const CLAIM_PATH := "stormcos/claim"
  const BOOTLOADER := "EFI/BOOT/BOOTX64.EFI"
  const ENTRIES := "loader/entries/"
  const SLAB_KEY := "rd.stormblock.slab="
  const VOLUME_KEY := "stormblock.volume="

  datatype Boot = Boot(cmdline: string, slabDevice: Option<string>, bootVolume: Option<string>)

  datatype Missing = NoEntry | NotOnEsp(what: string, path: string) | NotNamed(what: string) | NoBootloader

  datatype Esp = Esp(boot: Option<Boot>, claim: Option<Claim>, missing: seq<Missing>)

  datatype Entry = Entry(linux: Option<string>, initrd: Option<string>, options: Option<string>)

  // ------------------------------------------------------------------ pieces

  /** `read_file`: None for a file that is not there, and for one that is not text. */
  function ReadFile(fs: Fs, path: string): Option<string> {
    if path in fs.files then Decode(fs.files[path]) else None
  }

  function AsciiLower(s: string): string {
    seq(|s|, i requires 0 <= i < |s| =>
      if 'A' <= s[i] <= 'Z' then (s[i] as int + 32) as char else s[i])
  }

  predicate IsConf(name: string) {
    |name| >= 5 && AsciiLower(name[|name| - 5..]) == ".conf"
  }

  /** The trimmed rest of the first line that starts with `key`; a blank one counts as absent. */
  function Field(text: string, key: string): Option<string> {
    var found := FirstStripped(Lines(text), key);
    if found.Some? && Trim(found.value) != "" then Some(Trim(found.value)) else None
  }

  function EntryOf(text: string): Entry {
    Entry(Field(text, "linux"), Field(text, "initrd"), Field(text, "options"))
  }

  /** The text a directory entry contributes, when it is a readable `.conf` file. */
  function ConfText(fs: Fs, e: DirEntry): Option<string> {
    if e.isDir || !IsConf(e.name) then None else ReadFile(fs, ENTRIES + e.name)
  }

  function FirstConf(fs: Fs, entries: seq<DirEntry>): Option<string> {
    if entries == [] then None
    else if ConfText(fs, entries[0]).Some? then ConfText(fs, entries[0])
    else FirstConf(fs, entries[1..])
  }

  function LoaderEntry(fs: Fs): Option<Entry> {
    if fs.entries.None? then None else
      var text := FirstConf(fs, fs.entries.value);
      if text.None? then None else Some(EntryOf(text.value))
  }

  function TrimSlashes(path: string): string {
    if path != "" && path[0] == '/' then TrimSlashes(path[1..]) else path
  }

  /** `cmdline_value`: the first word that starts with `key` decides, and an empty value is none. */
  function CmdlineValue(cmdline: string, key: string): Option<string> {
    var found := FirstStripped(Words(cmdline), key);
    if found.Some? && found.value != "" then found else None
  }

  function MissingFile(fs: Fs, what: string, path: Option<string>): seq<Missing> {
    if path.None? then [NotNamed(what)]
    else if ReadFile(fs, TrimSlashes(path.value)).Some? then []
    else [NotOnEsp(what, path.value)]
  }

  function MissingFrom(fs: Fs, entry: Entry): seq<Missing> {
    MissingFile(fs, "kernel", entry.linux) + MissingFile(fs, "initramfs", entry.initrd)
    + if BOOTLOADER in fs.files then [] else [NoBootloader]
  }

  function ClaimOn(fs: Fs): Option<Claim> {
    var text := ReadFile(fs, CLAIM_PATH);
    if text.None? then None else ParseClaim(text.value)
  }

  function BootNamed(entry: Entry): Boot {
    var cmdline := if entry.options.Some? then entry.options.value else "";
    Boot(cmdline, CmdlineValue(cmdline, SLAB_KEY), CmdlineValue(cmdline, VOLUME_KEY))
  }

  /** What reading an ESP finds. */
  function EspOf(fs: Fs): Esp {
    var entry := LoaderEntry(fs);
    if entry.None? then Esp(None, ClaimOn(fs), [NoEntry]) else
      var missing := MissingFrom(fs, entry.value);
      Esp(if missing == [] then Some(BootNamed(entry.value)) else None, ClaimOn(fs), missing)
  }

  // ------------------------------------------------------------------ reading trouble

  /** What one reading of an ESP comes to: it fails, or it yields what is there less the files that
      will not be read this time. */
  datatype Reading = Fails | Yields(lost: set<string>)

  /** The file system as a reading that loses files sees it. */
  function Seen(fs: Fs, lost: set<string>): Fs {
    fs.(files := fs.files - lost)
  }

  predicate ReadsClaim(reading: Reading) {
    reading.Yields? && CLAIM_PATH !in reading.lost
  }

  // ------------------------------------------------------------------ the file system in use

  /** An ESP opened for reading or for writing. */
  class Volume {
    var fs: Fs

    constructor (fs: Fs)
      ensures this.fs == fs
    {
      this.fs := fs;
    }

    method LoaderConf() returns (entry: Option<Entry>)
      ensures entry == LoaderEntry(fs)
    {
      if fs.entries.None? { return None; }
      var entries := fs.entries.value;
      for i := 0 to |entries|
        invariant FirstConf(fs, entries) == FirstConf(fs, entries[i..])
      {
        assert entries[i..][1..] == entries[i + 1..];
        if entries[i].isDir || !IsConf(entries[i].name) { continue; }
        var text := ReadFile(fs, ENTRIES + entries[i].name);
        if text.None? { continue; }
        return Some(EntryOf(text.value));
      }
      return None;
    }

    /** `read`, past the mounting. */
    method Read() returns (esp: Esp)
      ensures esp == EspOf(fs)
    {
      var claim: Option<Claim> := None;
      var text := ReadFile(fs, CLAIM_PATH);
      if text.Some? {
        claim := Parse(text.value);
      }
      var missing: seq<Missing> := [];
      var entry := LoaderConf();
      if entry.None? {
        missing := missing + [NoEntry];
        return Esp(None, claim, missing);
      }
      var named := [("kernel", entry.value.linux), ("initramfs", entry.value.initrd)];
      for i := 0 to 2
        invariant missing == (if i < 1 then [] else MissingFile(fs, "kernel", entry.value.linux))
                             + (if i < 2 then [] else MissingFile(fs, "initramfs", entry.value.initrd))
      {
        var (what, path) := named[i];
        if path.None? {
          missing := missing + [NotNamed(what)];
        } else if ReadFile(fs, TrimSlashes(path.value)).None? {
          missing := missing + [NotOnEsp(what, path.value)];
        }
      }
      if BOOTLOADER !in fs.files {
        missing := missing + [NoBootloader];
      }
      if missing != [] {
        return Esp(None, claim, missing);
      }
      return Esp(Some(BootNamed(entry.value)), claim, missing);
    }

    /** Create a file, or empty the one that is there, and write it. */
    method Write(path: string, content: Bytes)
      modifies this
      ensures fs == old(fs).(files := old(fs).files[path := content])
    {
      fs := fs.(files := fs.files[path := content]);
    }

    /** `write_claim`, past the mounting; `takes` is whether the medium accepts the write. */
    method WriteClaim(claim: Claim, takes: bool) returns (ok: bool)
      modifies this
      ensures ok == takes
      ensures fs == if takes then WithClaim(old(fs), claim) else old(fs)
    {
      if !takes { return false; }
      Write(CLAIM_PATH, Encode(Render(claim)));
      return true;
    }
  }

  function WithClaim(fs: Fs, claim: Claim): Fs {
    fs.(files := fs.files[CLAIM_PATH := Encode(Render(claim))])
  }

  // ------------------------------------------------------------------ what reading means

  /** The entry that counts is the first that contributes anything, and there is one when any does. */
  lemma {:induction false} FirstConfIsFirst(fs: Fs, entries: seq<DirEntry>) returns (i: nat)
    ensures FirstConf(fs, entries).None? <==> forall j :: 0 <= j < |entries| ==> ConfText(fs, entries[j]).None?
    ensures FirstConf(fs, entries).Some? ==>
              i < |entries| && FirstConf(fs, entries) == ConfText(fs, entries[i])
              && forall j :: 0 <= j < i ==> ConfText(fs, entries[j]).None?
  {
    i := 0;
    if entries != [] && ConfText(fs, entries[0]).None? {
      i := FirstConfIsFirst(fs, entries[1..]);
      i := i + 1;
      assert forall j :: 1 <= j < |entries| ==> entries[j] == entries[1..][j - 1];
    }
  }

  predicate OnEsp(fs: Fs, path: Option<string>) {
    path.Some? && ReadFile(fs, TrimSlashes(path.value)).Some?
  }

  /** Directory entry `i` is the first readable loader entry, and what it names is there to be read. */
  predicate CompleteEntry(fs: Fs, i: nat) {
    && fs.entries.Some? && i < |fs.entries.value|
    && (forall j :: 0 <= j < i ==> ConfText(fs, fs.entries.value[j]).None?)
    && var text := ConfText(fs, fs.entries.value[i]);
    && text.Some? && OnEsp(fs, Field(text.value, "linux")) && OnEsp(fs, Field(text.value, "initrd"))
  }

  /** A drive boots exactly when the boot loader is there and the first loader entry that can be read
      names a kernel and an initramfs that can be read as text. */
  lemma BootsWhenComplete(fs: Fs)
    ensures EspOf(fs).boot.Some? <==> BOOTLOADER in fs.files && exists i: nat :: CompleteEntry(fs, i)
    ensures EspOf(fs).boot.Some? <==> EspOf(fs).missing == []
  {
    if fs.entries.Some? {
      var i := FirstConfIsFirst(fs, fs.entries.value);
      if EspOf(fs).boot.Some? {
        assert CompleteEntry(fs, i);
      }
      if j: nat :| CompleteEntry(fs, j) {
        assert !(i < j) && !(j < i);
      }
    }
  }

  /** The loader entry's files, less any that is the claim file. */
  predicate NamesClaimFile(entry: Entry) {
    || (entry.linux.Some? && TrimSlashes(entry.linux.value) == CLAIM_PATH)
    || (entry.initrd.Some? && TrimSlashes(entry.initrd.value) == CLAIM_PATH)
  }

  lemma {:induction false} ClaimLeavesEntries(fs: Fs, claim: Claim, entries: seq<DirEntry>)
    ensures FirstConf(WithClaim(fs, claim), entries) == FirstConf(fs, entries)
  {
    if entries != [] {
      ClaimLeavesEntries(fs, claim, entries[1..]);
      assert (ENTRIES + entries[0].name)[0] == 'l' && CLAIM_PATH[0] == 's';
    }
  }

  lemma ClaimLeavesLoader(fs: Fs, claim: Claim)
    ensures LoaderEntry(WithClaim(fs, claim)) == LoaderEntry(fs)
    ensures BOOTLOADER in WithClaim(fs, claim).files <==> BOOTLOADER in fs.files
  {
    if fs.entries.Some? {
      ClaimLeavesEntries(fs, claim, fs.entries.value);
    }
    assert BOOTLOADER[0] == 'E' && CLAIM_PATH[0] == 's';
  }

  lemma ClaimLeavesFile(fs: Fs, claim: Claim, what: string, path: Option<string>)
    ensures var before, after := MissingFile(fs, what, path), MissingFile(WithClaim(fs, claim), what, path);
            && (before == [] ==> after == [])
            && (after != before ==> path.Some? && TrimSlashes(path.value) == CLAIM_PATH)
  {
    DecodeEncode(Render(claim));
  }

  /** Claiming changes the claim and nothing else that is read: what booted boots just the same, and
      what did not boot still does not, unless its loader entry names the claim file as a kernel or
      an initramfs. */
  lemma ClaimChangesOnlyTheClaim(fs: Fs, claim: Claim)
    ensures var before, after := EspOf(fs), EspOf(WithClaim(fs, claim));
            && after.claim == ParseClaim(Render(claim))
            && (before.boot.Some? ==> after.boot == before.boot && after.missing == before.missing)
            && (after != before.(claim := after.claim) ==>
                  LoaderEntry(fs).Some? && NamesClaimFile(LoaderEntry(fs).value))
  {
    ClaimLeavesLoader(fs, claim);
    DecodeEncode(Render(claim));
    var entry := LoaderEntry(fs);
    if entry.Some? {
      ClaimLeavesFile(fs, claim, "kernel", entry.value.linux);
      ClaimLeavesFile(fs, claim, "initramfs", entry.value.initrd);
    }
  }

  /** A claim that is written is read by the readings that read the claim file, and by no other. */
  lemma ClaimSeen(fs: Fs, claim: Claim, lost: set<string>)
    ensures Seen(WithClaim(fs, claim), lost)
            == if CLAIM_PATH in lost then Seen(fs, lost) else WithClaim(Seen(fs, lost), claim)
  {
    if CLAIM_PATH in lost {
      assert Seen(WithClaim(fs, claim), lost).files == Seen(fs, lost).files;
    } else {
      assert Seen(WithClaim(fs, claim), lost).files == WithClaim(Seen(fs, lost), claim).files;
    }
  }

  /** What a reading that reads the claim file finds there is the claim. */
  lemma SeenClaim(fs: Fs, lost: set<string>)
    ensures ClaimOn(Seen(fs, lost)) == if CLAIM_PATH in lost then None else ClaimOn(fs)
  {
  }

  // ------------------------------------------------------------------ to the letter

  /** The claim file, and nothing but it: where it is and what is in it. */
  lemma ClaimFile(fs: Fs, claim: Claim)
    ensures var after := WithClaim(fs, claim);
            && after.entries == fs.entries
            && after.files.Keys == fs.files.Keys + {"stormcos/claim"}
            && after.files["stormcos/claim"]
               == Encode("node=" + claim.node + "\n" + "claimed=" + claim.claimed + "\n")
            && forall path :: path in fs.files && path != "stormcos/claim" ==> after.files[path] == fs.files[path]
  {
    ClaimText(claim);
  }

  /** Letters are made small, one by one, and nothing else changes. */
  lemma LowerByLetter(s: string, i: nat)
    requires i < |s|
    ensures var upper, lower := "ABCDEFGHIJKLMNOPQRSTUVWXYZ", "abcdefghijklmnopqrstuvwxyz";
            && |AsciiLower(s)| == |s|
            && (forall k :: 0 <= k < 26 && s[i] == upper[k] ==> AsciiLower(s)[i] == lower[k])
            && (s[i] !in upper ==> AsciiLower(s)[i] == s[i])
  {
    var upper, lower := "ABCDEFGHIJKLMNOPQRSTUVWXYZ", "abcdefghijklmnopqrstuvwxyz";
    assert forall k :: 0 <= k < 26 ==> upper[k] as int == 65 + k && lower[k] as int == 97 + k;
    if 'A' <= s[i] <= 'Z' {
      assert s[i] == upper[s[i] as int - 65];
    }
  }

  /** What counts as a loader entry's name, in either case. */
  lemma ConfNames(name: string)
    ensures IsConf(name) <==>
              && |name| >= 5
              && var end := name[|name| - 5..];
              && end[0] == '.' && (end[1] == 'c' || end[1] == 'C') && (end[2] == 'o' || end[2] == 'O')
              && (end[3] == 'n' || end[3] == 'N') && (end[4] == 'f' || end[4] == 'F')
  {
    if |name| >= 5 {
      var end := name[|name| - 5..];
      var lower := AsciiLower(end);
      assert lower == ".conf" <==> lower[0] == '.' && lower[1] == 'c' && lower[2] == 'o' && lower[3] == 'n' && lower[4] == 'f';
    }
  }

  /** All slashes in front go, and nothing else does. */
  lemma {:induction false} SlashesGo(path: string) returns (n: nat)
    ensures n <= |path| && TrimSlashes(path) == path[n..]
    ensures forall i :: 0 <= i < n ==> path[i] == '/'
    ensures n < |path| ==> path[n] != '/'
  {
    n := 0;
    if path != "" && path[0] == '/' {
      n := SlashesGo(path[1..]);
      n := n + 1;
    }
  }

  /** A field is on the first line that starts with its key: what stands behind the key, trimmed, if that
      leaves anything. */
  lemma FieldExactly(text: string, key: string) returns (i: nat)
    ensures Field(text, key).Some? <==>
              FirstWith(Lines(text), key, i) && Trim(Lines(text)[i][|key|..]) != ""
    ensures Field(text, key).Some? ==> Field(text, key).value == Trim(Lines(text)[i][|key|..])
  {
    i := FirstStrippedIsFirst(Lines(text), key);
  }

  /** A value is on the first word that starts with its key, if there is anything behind the key. */
  lemma CmdlineValueExactly(cmdline: string, key: string) returns (i: nat)
    ensures CmdlineValue(cmdline, key).Some? <==>
              FirstWith(Words(cmdline), key, i) && Words(cmdline)[i] != key
    ensures CmdlineValue(cmdline, key).Some? ==> Words(cmdline)[i] == key + CmdlineValue(cmdline, key).value
  {
    i := FirstStrippedIsFirst(Words(cmdline), key);
  }

  lemma MissingFileExactly(fs: Fs, what: string, path: Option<string>, m: Missing)
    ensures m in MissingFile(fs, what, path) <==>
              if path.None? then m == NotNamed(what)
              else m == NotOnEsp(what, path.value) && ReadFile(fs, TrimSlashes(path.value)).None?
  {
  }

  /** What is missing is said exactly when it is. */
  lemma MissingExactly(fs: Fs, m: Missing)
    ensures var entry := LoaderEntry(fs);
            m in EspOf(fs).missing <==>
              match m
              case NoEntry => entry.None?
              case NoBootloader => entry.Some? && "EFI/BOOT/BOOTX64.EFI" !in fs.files
              case NotNamed(what) =>
                entry.Some? && ((what == "kernel" && entry.value.linux.None?)
                                || (what == "initramfs" && entry.value.initrd.None?))
              case NotOnEsp(what, path) =>
                entry.Some? && ReadFile(fs, TrimSlashes(path)).None?
                && ((what == "kernel" && entry.value.linux == Some(path))
                    || (what == "initramfs" && entry.value.initrd == Some(path)))
  {
    var entry := LoaderEntry(fs);
    if entry.Some? {
      MissingFileExactly(fs, "kernel", entry.value.linux, m);
      MissingFileExactly(fs, "initramfs", entry.value.initrd, m);
    }
  }

  /** What boots says how in the entry's own words. */
  lemma BootSaysHow(fs: Fs)
    requires EspOf(fs).boot.Some?
    ensures var boot, options := EspOf(fs).boot.value, LoaderEntry(fs).value.options;
            && boot.cmdline == (if options.Some? then options.value else "")
            && boot.slabDevice == CmdlineValue(boot.cmdline, "rd.stormblock.slab=")
            && boot.bootVolume == CmdlineValue(boot.cmdline, "stormblock.volume=")
  {
  }
}
