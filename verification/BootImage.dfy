/** The ESP `boot-image` writes, and the theorem that makes the writer prove the reader. */
module BootImage {
  import opened Text
  import opened Utf8
  import opened Esp

  datatype Mount = Mount(volume: string, mount: string)

  datatype Spec = Spec(
    kernel: Bytes, initramfs: Bytes, bootloader: Bytes,
    volume: string, imageStore: Option<string>, writable: seq<Mount>,
    diskDevice: string, extra: Option<string>)

  // ------------------------------------------------------------------ the kernel command line

  function Joined(mounts: seq<Mount>): string {
    if mounts == [] then ""
    else if |mounts| == 1 then mounts[0].volume + ":" + mounts[0].mount
    else mounts[0].volume + ":" + mounts[0].mount + "," + Joined(mounts[1..])
  }

  // The words every command line starts with.
  const CONSOLE := "console=ttyS0"
  const ROOT := "root=/dev/ublkb0"
  const META := "rd.stormblock.meta=/etc/stormblock/meta"
  const OVERLAY := "rd.stormblock.overlay=tmpfs:1G"

  // And the keys of those that are appended.
  const STORE_KEY := "rd.stormblock.image-store="
  const WRITABLE_KEY := "rd.stormblock.writable="

  function SlabWord(spec: Spec): string {
    SLAB_KEY + (spec.diskDevice + "2")
  }

  function VolumeWord(spec: Spec): string {
    VOLUME_KEY + spec.volume
  }

  function Head(spec: Spec): string {
    Spaced([CONSOLE, ROOT, SlabWord(spec), META, VolumeWord(spec)], OVERLAY)
  }

  function StorePart(store: Option<string>): string {
    if store.Some? then " " + (STORE_KEY + store.value) else ""
  }

  function WritablePart(writable: seq<Mount>): string {
    if writable != [] then " " + (WRITABLE_KEY + Joined(writable)) else ""
  }

  function ExtraPart(extra: Option<string>): string {
    if extra.Some? then " " + extra.value else ""
  }

  function Cmdline(spec: Spec): string {
    Head(spec) + (StorePart(spec.imageStore) + (WritablePart(spec.writable) + ExtraPart(spec.extra)))
  }

  /** The part of `build_cmdline` that appends, to whatever is there already. */
  method Append(head: string, store: Option<string>, writable: seq<Mount>, extra: Option<string>)
    returns (c: string)
    ensures c == head + (StorePart(store) + (WritablePart(writable) + ExtraPart(extra)))
  {
    c := head;
    if store.Some? {
      c := c + (" " + (STORE_KEY + store.value));
    }
    assert c == head + StorePart(store);
    ghost var stored := c;
    if writable != [] {
      c := c + (" " + (WRITABLE_KEY + Joined(writable)));
    }
    assert c == stored + WritablePart(writable);
    ghost var mounted := c;
    if extra.Some? {
      c := c + " ";
      c := c + extra.value;
    }
    assert c == mounted + ExtraPart(extra);
    Associate(head, StorePart(store), WritablePart(writable), ExtraPart(extra));
  }

  lemma Associate(a: string, b: string, c: string, d: string)
    ensures a + b + c + d == a + (b + (c + d))
  {
  }

  /** `build_cmdline`. */
  method BuildCmdline(spec: Spec) returns (c: string)
    ensures c == Cmdline(spec)
  {
    c := Head(spec);
    c := Append(c, spec.imageStore, spec.writable, spec.extra);
  }

  // ------------------------------------------------------------------ the files

  const TITLE := "title   Storm CoreOS"
  const LINUX := "linux" + ("   " + "/vmlinuz")
  const INITRD := "initrd" + ("  " + "/initramfs.img")
  const LOADER_CONF := "default stormcos\ntimeout 0\nconsole-mode max\n"

  function EntryText(cmdline: string): string {
    TITLE + "\n" + (LINUX + "\n" + (INITRD + "\n" + ("options" + (" " + cmdline) + "\n")))
  }

  const LISTING: seq<DirEntry> := [DirEntry(".", true), DirEntry("..", true), DirEntry("stormcos.conf", false)]

  /** The ESP of a disk just built. */
  function Built(spec: Spec): Fs {
    Fs(map["EFI/BOOT/BOOTX64.EFI" := spec.bootloader,
           "vmlinuz" := spec.kernel,
           "initramfs.img" := spec.initramfs,
           "loader/loader.conf" := ByteString(LOADER_CONF),
           "loader/entries/stormcos.conf" := Encode(EntryText(Cmdline(spec)))],
       Some(LISTING))
  }

  /** `build`, from the formatted ESP on: file after file. */
  method LayEsp(spec: Spec) returns (fs: Fs)
    ensures fs == Built(spec)
  {
    var cmdline := BuildCmdline(spec);
    var v := new Volume(Fs(map[], Some(LISTING)));
    v.Write("EFI/BOOT/BOOTX64.EFI", spec.bootloader);
    v.Write("vmlinuz", spec.kernel);
    v.Write("initramfs.img", spec.initramfs);
    v.Write("loader/loader.conf", ByteString(LOADER_CONF));
    v.Write("loader/entries/stormcos.conf", Encode(EntryText(cmdline)));
    fs := v.fs;
  }

  // ------------------------------------------------------------------ reading the entry back

  /** The first line of a text that ends in a newline, whatever else is in it. */
  lemma LinesHead(text: string)
    ensures Lines(text + "\n") != [] && Lines(text + "\n")[0] == DropCr(FirstLine(text))
  {
    IndexOfIsFirst(text, '\n');
    var first := FirstLine(text);
    var rest := if first == text then "" else text[|first| + 1..] + "\n";
    assert text + "\n" == first + "\n" + rest;
    LinesCons(first, rest);
  }

  predicate PlainLine(line: string) {
    '\n' !in line && DropCr(line) == line
  }

  lemma LinesOfFour(a: string, b: string, c: string, last: string)
    requires PlainLine(a) && PlainLine(b) && PlainLine(c)
    ensures var lines := Lines(a + "\n" + (b + "\n" + (c + "\n" + (last + "\n"))));
            |lines| >= 4 && lines[0] == a && lines[1] == b && lines[2] == c
            && lines[3] == DropCr(FirstLine(last))
  {
    LinesCons(a, b + "\n" + (c + "\n" + (last + "\n")));
    LinesCons(b, c + "\n" + (last + "\n"));
    LinesCons(c, last + "\n");
    LinesHead(last);
  }

  lemma {:induction false} FirstStrippedAt(texts: seq<string>, prefix: string, i: nat)
    requires i < |texts| && prefix <= texts[i]
    requires forall j :: 0 <= j < i ==> !(prefix <= texts[j])
    ensures FirstStripped(texts, prefix) == Some(texts[i][|prefix|..])
  {
    if i > 0 {
      assert forall j :: 0 <= j < i - 1 ==> texts[1..][j] == texts[j + 1];
      FirstStrippedAt(texts[1..], prefix, i - 1);
    }
  }

  /** The first line that starts with the key is the one that counts. */
  lemma FieldAt(text: string, lines: seq<string>, key: string, i: nat, value: string)
    requires lines == Lines(text) && i < |lines| && lines[i] == key + value
    requires forall j :: 0 <= j < i ==> !(key <= lines[j])
    ensures Field(text, key) == if Trim(value) == "" then None else Some(Trim(value))
  {
    FirstStrippedAt(lines, key, i);
  }

  lemma TrimBlank(s: string)
    ensures Trim(" " + s) == Trim(s)
  {
    assert (" " + s)[1..] == s;
  }

  /** A text cannot start with what it already differs from. */
  lemma DifferAt(prefix: string, text: string, i: nat)
    requires i < |prefix| && i < |text| && prefix[i] != text[i]
    ensures !(prefix <= text)
  {
  }

  lemma ConstantLines()
    ensures PlainLine(TITLE) && PlainLine(LINUX) && PlainLine(INITRD)
    ensures !("linux" <= TITLE) && !("initrd" <= TITLE) && !("options" <= TITLE)
    ensures !("initrd" <= LINUX) && !("options" <= LINUX) && !("options" <= INITRD)
  {
    DifferAt("linux", TITLE, 0);
    DifferAt("initrd", TITLE, 0);
    DifferAt("options", TITLE, 0);
    DifferAt("initrd", LINUX, 0);
    DifferAt("options", LINUX, 0);
    DifferAt("options", INITRD, 0);
  }

  lemma FirstLineOf(a: string, rest: string)
    requires '\n' !in a && (rest == "" || rest[0] == '\n')
    ensures FirstLine(a + rest) == a
  {
    if rest == "" {
      IndexOfIsFirst(a + rest, '\n');
      assert a + rest == a;
    } else {
      assert a + rest == a + ['\n'] + rest[1..];
      IndexOfAfter(a, '\n', rest[1..]);
    }
  }

  /** The first line of a keyed text is the key and the first line of what follows it. */
  lemma KeyedFirstLine(key: string, value: string)
    requires '\n' !in key && value != "" && value[0] == ' '
    ensures DropCr(FirstLine(key + value)) == key + DropCr(FirstLine(value))
  {
    IndexOfIsFirst(value, '\n');
    var n := IndexOf(value, '\n');
    assert n > 0;
    assert key + value == key + value[..n] + value[n..];
    FirstLineOf(key + value[..n], value[n..]);
  }

  predicate NoneStarts(key: string, lines: seq<string>) {
    forall i :: 0 <= i < |lines| ==> !(key <= lines[i])
  }

  lemma FieldAfter(text: string, before: seq<string>, key: string, value: string)
    requires var n := |before|;
             n < |Lines(text)| && Lines(text)[..n] == before && Lines(text)[n] == key + value
    requires NoneStarts(key, before)
    ensures Field(text, key) == if Trim(value) == "" then None else Some(Trim(value))
  {
    var lines := Lines(text);
    assert forall j :: 0 <= j < |before| ==> lines[j] == lines[..|before|][j];
    FieldAt(text, lines, key, |before|, value);
  }

  lemma TrimmedNames()
    ensures Trim("   " + "/vmlinuz") == "/vmlinuz"
    ensures Trim("  " + "/initramfs.img") == "/initramfs.img"
  {
    TrimLeavesTrimmed("/vmlinuz");
    TrimTwo(" " + "/vmlinuz");
    TrimBlank("/vmlinuz");
    assert "   " + "/vmlinuz" == "  " + (" " + "/vmlinuz");
    TrimLeavesTrimmed("/initramfs.img");
    TrimTwo("/initramfs.img");
  }

  lemma TrimTwo(s: string)
    ensures Trim("  " + s) == Trim(s)
  {
    TrimBlank(s);
    TrimBlank(" " + s);
    assert " " + (" " + s) == "  " + s;
  }

  /** What stands after the keyword on the first line of the options. */
  function OptionsText(cmdline: string): string {
    Trim(DropCr(FirstLine(" " + cmdline)))
  }

  lemma EntryLines(cmdline: string)
    ensures var lines := Lines(EntryText(cmdline));
            && |lines| >= 4 && lines[..1] == [TITLE] && lines[..2] == [TITLE, LINUX]
            && lines[..3] == [TITLE, LINUX, INITRD]
            && lines[3] == "options" + DropCr(FirstLine(" " + cmdline))
  {
    ConstantLines();
    LinesOfFour(TITLE, LINUX, INITRD, "options" + (" " + cmdline));
    KeyedFirstLine("options", " " + cmdline);
  }

  /** The entry `build` writes names its files and its options, first match first. */
  lemma EntryReadsBack(cmdline: string)
    ensures var text := EntryText(cmdline);
            && Field(text, "linux") == Some("/vmlinuz")
            && Field(text, "initrd") == Some("/initramfs.img")
            && Field(text, "options") == if OptionsText(cmdline) == "" then None else Some(OptionsText(cmdline))
  {
    var text := EntryText(cmdline);
    EntryLines(cmdline);
    ConstantLines();
    TrimmedNames();
    var lines := Lines(text);
    assert lines[1] == lines[..2][1] && lines[2] == lines[..3][2];
    FieldAfter(text, [TITLE], "linux", "   " + "/vmlinuz");
    FieldAfter(text, [TITLE, LINUX], "initrd", "  " + "/initramfs.img");
    FieldAfter(text, [TITLE, LINUX, INITRD], "options", DropCr(FirstLine(" " + cmdline)));
  }

  // ------------------------------------------------------------------ the command line read back

  /** Visible ASCII. */
  predicate Graphic(s: string) {
    forall i :: 0 <= i < |s| ==> '!' <= s[i] <= '~'
  }

  predicate IsWord(w: string) {
    w != "" && NoWhitespace(w)
  }

  lemma GraphicIsWord(s: string)
    requires s != "" && Graphic(s)
    ensures IsWord(s)
  {
  }

  lemma ConsoleIsWord() ensures IsWord(CONSOLE) { assert Graphic(CONSOLE); GraphicIsWord(CONSOLE); }
  lemma RootIsWord() ensures IsWord(ROOT) { assert Graphic(ROOT); GraphicIsWord(ROOT); }
  lemma MetaIsWord() ensures IsWord(META) { assert Graphic(META); GraphicIsWord(META); }
  lemma SlabKeyIsWord() ensures IsWord(SLAB_KEY) { assert Graphic(SLAB_KEY); GraphicIsWord(SLAB_KEY); }
  lemma VolumeKeyIsWord() ensures IsWord(VOLUME_KEY) { assert Graphic(VOLUME_KEY); GraphicIsWord(VOLUME_KEY); }

  lemma KeysDiffer(tail: string)
    ensures !(SLAB_KEY <= CONSOLE) && !(SLAB_KEY <= ROOT)
    ensures !(VOLUME_KEY <= CONSOLE) && !(VOLUME_KEY <= ROOT) && !(VOLUME_KEY <= META)
    ensures !(VOLUME_KEY <= SLAB_KEY + tail)
  {
    DifferAt(SLAB_KEY, CONSOLE, 0);
    DifferAt(SLAB_KEY, ROOT, 1);
    DifferAt(VOLUME_KEY, CONSOLE, 0);
    DifferAt(VOLUME_KEY, ROOT, 0);
    DifferAt(VOLUME_KEY, META, 0);
    DifferAt(VOLUME_KEY, SLAB_KEY + tail, 0);
  }

  function Spaced(words: seq<string>, rest: string): string {
    if words == [] then rest else words[0] + " " + Spaced(words[1..], rest)
  }

  lemma {:induction false} WordsOfSpaced(words: seq<string>, rest: string)
    requires forall i :: 0 <= i < |words| ==> IsWord(words[i])
    ensures Words(Spaced(words, rest)) == words + Words(rest)
  {
    if words == [] {
      assert words + Words(rest) == Words(rest);
    } else {
      WordsOfSpaced(words[1..], rest);
      WordsCons(words[0], ' ', Spaced(words[1..], rest));
      Split(words, Words(rest));
    }
  }

  lemma Split(words: seq<string>, more: seq<string>)
    requires words != []
    ensures words + more == [words[0]] + (words[1..] + more)
  {
  }

  lemma {:induction false} SpacedConcat(words: seq<string>, a: string, b: string)
    ensures Spaced(words, a) + b == Spaced(words, a + b)
  {
    if words != [] {
      SpacedConcat(words[1..], a, b);
      assert Spaced(words, a) + b == words[0] + " " + (Spaced(words[1..], a) + b);
    }
  }

  lemma WordHasNoNewline(w: string)
    requires NoWhitespace(w)
    ensures '\n' !in w
  {
    assert IsWhitespace('\n');
  }

  lemma FirstLineSkips(a: string, rest: string)
    requires '\n' !in a
    ensures FirstLine(a + rest) == a + FirstLine(rest)
  {
    IndexOfIsFirst(rest, '\n');
    var n := IndexOf(rest, '\n');
    assert a + rest == (a + rest[..n]) + rest[n..];
    FirstLineOf(a + rest[..n], rest[n..]);
  }

  lemma {:induction false} FirstLineOfSpaced(words: seq<string>, rest: string)
    requires forall i :: 0 <= i < |words| ==> IsWord(words[i])
    ensures FirstLine(Spaced(words, rest)) == Spaced(words, FirstLine(rest))
  {
    if words != [] {
      var first, more := words[0], Spaced(words[1..], rest);
      FirstLineOfSpaced(words[1..], rest);
      WordHasNoNewline(first);
      FirstLineSkips(first + " ", more);
    }
  }

  /** The keyword, the blanks and the line end around the options hide none of their words. */
  lemma OptionsWords(cmdline: string)
    ensures Words(OptionsText(cmdline)) == Words(FirstLine(cmdline))
  {
    var line := FirstLine(" " + cmdline);
    WordsOfTrim(DropCr(line));
    if DropCr(line) != line {
      assert line == DropCr(line) + ['\r'];
      WordsIgnoreTrailing(DropCr(line), '\r');
    }
    FirstLineSkips(" ", cmdline);
    assert line[1..] == FirstLine(cmdline);
  }

  function FirstWords(spec: Spec): seq<string> {
    [CONSOLE, ROOT, SlabWord(spec), META, VolumeWord(spec)]
  }

  predicate Nameable(spec: Spec) {
    NoWhitespace(spec.diskDevice) && IsWord(spec.volume)
  }

  lemma ConcatIsWord(a: string, b: string)
    requires IsWord(a) && NoWhitespace(b)
    ensures IsWord(a + b)
  {
  }

  lemma FirstWordsAreWords(spec: Spec)
    requires Nameable(spec)
    ensures forall i :: 0 <= i < |FirstWords(spec)| ==> IsWord(FirstWords(spec)[i])
  {
    ConsoleIsWord();
    RootIsWord();
    MetaIsWord();
    SlabKeyIsWord();
    VolumeKeyIsWord();
    assert NoWhitespace(spec.diskDevice + "2");
    ConcatIsWord(SLAB_KEY, spec.diskDevice + "2");
    ConcatIsWord(VOLUME_KEY, spec.volume);
  }

  /** Whatever follows them, the first words of a nameable spec are read back as words. */
  lemma OptionsStartWithFirstWords(spec: Spec)
    requires Nameable(spec)
    ensures var words := Words(OptionsText(Cmdline(spec)));
            |words| >= 5 && words[..5] == FirstWords(spec)
  {
    var tail := StorePart(spec.imageStore) + (WritablePart(spec.writable) + ExtraPart(spec.extra));
    var first := FirstWords(spec);
    FirstWordsAreWords(spec);
    SpacedConcat(first, OVERLAY, tail);
    OptionsWords(Cmdline(spec));
    FirstLineOfSpaced(first, OVERLAY + tail);
    WordsOfSpaced(first, FirstLine(OVERLAY + tail));
  }

  lemma {:induction false} FirstStrippedFrom(texts: seq<string>, prefix: string)
    requires FirstStripped(texts, prefix).Some?
    ensures prefix + FirstStripped(texts, prefix).value in texts
  {
    if prefix <= texts[0] {
      assert texts[0] == prefix + texts[0][|prefix|..];
    } else {
      FirstStrippedFrom(texts[1..], prefix);
    }
  }

  lemma ValueIsWord(cmdline: string, key: string)
    requires CmdlineValue(cmdline, key).Some?
    ensures IsWord(CmdlineValue(cmdline, key).value)
  {
    FirstStrippedFrom(Words(cmdline), key);
    var value := CmdlineValue(cmdline, key).value;
    WordsAreWords(cmdline, key + value);
    assert forall c :: c in value ==> c in key + value;
  }

  lemma FirstStrippedIn(words: seq<string>, first: seq<string>, key: string, i: nat, value: string)
    requires i < |first| <= |words| && words[..|first|] == first
    requires first[i] == key + value
    requires forall j :: 0 <= j < i ==> !(key <= first[j])
    ensures FirstStripped(words, key) == Some(value)
  {
    assert forall j :: 0 <= j < |first| ==> words[j] == first[j];
    FirstStrippedAt(words, key, i);
  }

  lemma FirstWordsAt(spec: Spec)
    ensures var first := FirstWords(spec);
            && |first| == 5 && first[0] == CONSOLE && first[1] == ROOT && first[2] == SlabWord(spec)
            && first[3] == META && first[4] == VolumeWord(spec)
  {
  }

  lemma SlabWordIsFirst(spec: Spec, words: seq<string>)
    requires |words| >= 5 && words[..5] == FirstWords(spec)
    ensures FirstStripped(words, SLAB_KEY) == Some(spec.diskDevice + "2")
  {
    FirstWordsAt(spec);
    KeysDiffer(spec.diskDevice + "2");
    FirstStrippedIn(words, FirstWords(spec), SLAB_KEY, 2, spec.diskDevice + "2");
  }

  lemma VolumeWordIsFirst(spec: Spec, words: seq<string>)
    requires |words| >= 5 && words[..5] == FirstWords(spec)
    ensures FirstStripped(words, VOLUME_KEY) == Some(spec.volume)
  {
    FirstWordsAt(spec);
    KeysDiffer(spec.diskDevice + "2");
    FirstStrippedIn(words, FirstWords(spec), VOLUME_KEY, 4, spec.volume);
  }

  lemma ValuesOfNameable(spec: Spec)
    requires Nameable(spec)
    ensures var options := OptionsText(Cmdline(spec));
            && CmdlineValue(options, SLAB_KEY) == Some(spec.diskDevice + "2")
            && CmdlineValue(options, VOLUME_KEY) == Some(spec.volume)
  {
    var words := Words(OptionsText(Cmdline(spec)));
    OptionsStartWithFirstWords(spec);
    SlabWordIsFirst(spec, words);
    VolumeWordIsFirst(spec, words);
  }

  /** Round trip: the reader finds the slab device and the boot volume the writer put there for every
      image store, writable list and extra arguments, exactly when both are single words. */
  lemma CmdlineReadsBack(spec: Spec)
    ensures var options := OptionsText(Cmdline(spec));
            (CmdlineValue(options, SLAB_KEY) == Some(spec.diskDevice + "2")
             && CmdlineValue(options, VOLUME_KEY) == Some(spec.volume)) <==> Nameable(spec)
  {
    var options := OptionsText(Cmdline(spec));
    if Nameable(spec) {
      ValuesOfNameable(spec);
    }
    if CmdlineValue(options, SLAB_KEY) == Some(spec.diskDevice + "2")
       && CmdlineValue(options, VOLUME_KEY) == Some(spec.volume) {
      ValueIsWord(options, SLAB_KEY);
      ValueIsWord(options, VOLUME_KEY);
      assert forall c :: c in spec.diskDevice ==> c in spec.diskDevice + "2";
    }
  }

  // ------------------------------------------------------------------ the disk read back

  lemma EntryPath()
    ensures ENTRIES + "stormcos.conf" == "loader/entries/stormcos.conf"
  {
  }

  lemma TextReads(fs: Fs, path: string, text: string)
    requires path in fs.files && fs.files[path] == Encode(text)
    ensures ReadFile(fs, path) == Some(text)
  {
    DecodeEncode(text);
  }

  lemma EntryFile(spec: Spec)
    ensures ReadFile(Built(spec), ENTRIES + "stormcos.conf") == Some(EntryText(Cmdline(spec)))
  {
    EntryPath();
    TextReads(Built(spec), "loader/entries/stormcos.conf", EntryText(Cmdline(spec)));
  }

  lemma EntryIsConf()
    ensures IsConf("stormcos.conf")
  {
    var name := "stormcos.conf";
    assert name[|name| - 5..] == ".conf" && AsciiLower(".conf") == ".conf";
  }

  lemma {:induction false} EntryFoundIn(fs: Fs, entries: seq<DirEntry>, i: nat, text: string)
    requires i < |entries| && ConfText(fs, entries[i]) == Some(text)
    requires forall j :: 0 <= j < i ==> entries[j].isDir
    ensures FirstConf(fs, entries) == Some(text)
  {
    if i > 0 {
      assert forall j :: 0 <= j < i - 1 ==> entries[1..][j] == entries[j + 1];
      EntryFoundIn(fs, entries[1..], i - 1, text);
    }
  }

  lemma EntryListed(fs: Fs, text: string)
    requires fs.entries == Some(LISTING) && ReadFile(fs, ENTRIES + "stormcos.conf") == Some(text)
    ensures LoaderEntry(fs) == Some(EntryOf(text))
  {
    EntryIsConf();
    EntryFoundIn(fs, LISTING, 2, text);
  }

  lemma EntryFound(spec: Spec)
    ensures LoaderEntry(Built(spec)) == Some(EntryOf(EntryText(Cmdline(spec))))
  {
    EntryFile(spec);
    EntryListed(Built(spec), EntryText(Cmdline(spec)));
  }

  lemma SlashesTrimmed()
    ensures TrimSlashes("/vmlinuz") == "vmlinuz" && TrimSlashes("/initramfs.img") == "initramfs.img"
  {
    assert "/vmlinuz"[1..] == "vmlinuz" && "/initramfs.img"[1..] == "initramfs.img";
  }

  function RefusedFile(what: string, path: string, content: Bytes): seq<Missing> {
    if IsText(content) then [] else [NotOnEsp(what, path)]
  }

  lemma FilesFound(spec: Spec)
    ensures var fs := Built(spec);
            && CLAIM_PATH !in fs.files && BOOTLOADER in fs.files
            && MissingFile(fs, "kernel", Some("/vmlinuz")) == RefusedFile("kernel", "/vmlinuz", spec.kernel)
            && MissingFile(fs, "initramfs", Some("/initramfs.img"))
               == RefusedFile("initramfs", "/initramfs.img", spec.initramfs)
  {
    var fs := Built(spec);
    SlashesTrimmed();
    assert CLAIM_PATH[0] == 's';
    assert fs.files["vmlinuz"] == spec.kernel && fs.files["initramfs.img"] == spec.initramfs;
  }

  lemma EntryNamed(spec: Spec, entry: Entry)
    requires entry == EntryOf(EntryText(Cmdline(spec)))
    ensures entry.linux == Some("/vmlinuz") && entry.initrd == Some("/initramfs.img")
    ensures BootNamed(entry).cmdline == OptionsText(Cmdline(spec))
  {
    EntryReadsBack(Cmdline(spec));
  }

  /** A disk just built: unclaimed, and bootable to its own reader exactly when the kernel and the
      initramfs happen to be UTF-8 text, because the reader asks for their presence by reading them as text.
      When it does boot, it asks for its own slab partition and its own volume. */
  lemma BuiltDiskReadsBack(spec: Spec)
    ensures var esp := EspOf(Built(spec));
            && esp.claim.None?
            && esp.missing == RefusedFile("kernel", "/vmlinuz", spec.kernel)
                              + RefusedFile("initramfs", "/initramfs.img", spec.initramfs)
            && (esp.boot.Some? <==> IsText(spec.kernel) && IsText(spec.initramfs))
            && (esp.boot.Some? ==>
                  ((esp.boot.value.slabDevice == Some(spec.diskDevice + "2")
                    && esp.boot.value.bootVolume == Some(spec.volume)) <==> Nameable(spec)))
  {
    var fs := Built(spec);
    var entry := EntryOf(EntryText(Cmdline(spec)));
    EntryFound(spec);
    EntryNamed(spec, entry);
    FilesFound(spec);
    CmdlineReadsBack(spec);
  }

  /** One byte that UTF-8 has no use for, anywhere in the kernel, and the disk does not count as
      bootable, complete as it is: its reader reports the kernel as not there. */
  lemma BinaryKernelsDoNotCount(spec: Spec, i: nat)
    requires i < |spec.kernel| && Refused(spec.kernel[i])
    ensures EspOf(Built(spec)).boot.None?
    ensures NotOnEsp("kernel", "/vmlinuz") in EspOf(Built(spec)).missing
  {
    RefusedByteIsNoText(spec.kernel, i);
    BuiltDiskReadsBack(spec);
  }

  /** The same of the initramfs. */
  lemma BinaryInitramfsDoesNotCount(spec: Spec, i: nat)
    requires i < |spec.initramfs| && Refused(spec.initramfs[i])
    ensures EspOf(Built(spec)).boot.None?
    ensures NotOnEsp("initramfs", "/initramfs.img") in EspOf(Built(spec)).missing
  {
    RefusedByteIsNoText(spec.initramfs, i);
    BuiltDiskReadsBack(spec);
  }

  lemma ConstantLinesInFull()
    ensures LINUX == "linux   /vmlinuz" && INITRD == "initrd  /initramfs.img"
  {
  }

  /** The loader entry in full, line by line. */
  lemma EntryInFull(cmdline: string)
    ensures EntryText(cmdline)
            == "title   Storm CoreOS" + "\n"
               + ("linux   /vmlinuz" + "\n" + ("initrd  /initramfs.img" + "\n" + ("options" + (" " + cmdline) + "\n")))
  {
    ConstantLinesInFull();
  }

  /** The files of a disk just built, and no others. */
  lemma FilesInFull(spec: Spec)
    ensures var files := Built(spec).files;
            && files.Keys == {"EFI/BOOT/BOOTX64.EFI", "vmlinuz", "initramfs.img", "loader/loader.conf",
                              "loader/entries/stormcos.conf"}
            && files["EFI/BOOT/BOOTX64.EFI"] == spec.bootloader && files["vmlinuz"] == spec.kernel
            && files["initramfs.img"] == spec.initramfs
            && files["loader/loader.conf"] == ByteString("default stormcos\ntimeout 0\nconsole-mode max\n")
            && Decode(files["loader/entries/stormcos.conf"]) == Some(EntryText(Cmdline(spec)))
  {
    DecodeEncode(EntryText(Cmdline(spec)));
  }

  // ------------------------------------------------------------------ every word of the command line

  /** What is appended to the last word: nothing, or something set off by a blank. */
  predicate SetOff(tail: string) {
    tail == "" || tail[0] == ' '
  }

  lemma WordsOfSetOff(w: string, tail: string)
    requires IsWord(w) && SetOff(tail)
    ensures Words(w + tail) == [w] + Words(tail)
  {
    if tail == "" {
      WordLengthAfter(w, ' ', "");
      assert w + tail == w && w[..|w|] == w;
    } else {
      assert w + tail == w + [' '] + tail[1..];
      WordsCons(w, ' ', tail[1..]);
    }
  }

  lemma WordsOfPart(w: string, tail: string)
    requires IsWord(w) && SetOff(tail)
    ensures Words(" " + w + tail) == [w] + Words(tail) && SetOff(" " + w + tail)
  {
    assert (" " + w + tail)[1..] == w + tail;
    WordsOfSetOff(w, tail);
  }

  predicate MountIsPlain(m: Mount) {
    NoWhitespace(m.volume) && NoWhitespace(m.mount)
  }

  lemma {:induction false} JoinedIsPlain(mounts: seq<Mount>)
    requires forall i :: 0 <= i < |mounts| ==> MountIsPlain(mounts[i])
    ensures NoWhitespace(Joined(mounts))
  {
    if |mounts| > 1 {
      JoinedIsPlain(mounts[1..]);
      var first := mounts[0].volume + ":" + mounts[0].mount + ",";
      assert NoWhitespace(first);
      assert Joined(mounts) == first + Joined(mounts[1..]);
    }
  }

  function StoreWords(store: Option<string>): seq<string> {
    if store.Some? then ["rd.stormblock.image-store=" + store.value] else []
  }

  function WritableWords(writable: seq<Mount>): seq<string> {
    if writable != [] then ["rd.stormblock.writable=" + Joined(writable)] else []
  }

  function ExtraWords(extra: Option<string>): seq<string> {
    if extra.Some? then Words(extra.value) else []
  }

  lemma OverlayIsWord() ensures IsWord(OVERLAY) { assert Graphic(OVERLAY); GraphicIsWord(OVERLAY); }
  lemma StoreKeyIsWord() ensures IsWord(STORE_KEY) { assert Graphic(STORE_KEY); GraphicIsWord(STORE_KEY); }
  lemma WritableKeyIsWord() ensures IsWord(WRITABLE_KEY) { assert Graphic(WRITABLE_KEY); GraphicIsWord(WRITABLE_KEY); }

  lemma WordsOfKeyed(key: string, value: string, tail: string)
    requires IsWord(key) && NoWhitespace(value) && SetOff(tail)
    ensures Words(" " + (key + value) + tail) == [key + value] + Words(tail) && SetOff(" " + (key + value) + tail)
  {
    ConcatIsWord(key, value);
    WordsOfPart(key + value, tail);
  }

  lemma ExtraPartWords(extra: Option<string>)
    ensures Words(ExtraPart(extra)) == ExtraWords(extra) && SetOff(ExtraPart(extra))
  {
    if extra.Some? {
      assert (" " + extra.value)[1..] == extra.value;
    }
  }

  lemma WritablePartWords(writable: seq<Mount>, tail: string)
    requires (forall i :: 0 <= i < |writable| ==> MountIsPlain(writable[i])) && SetOff(tail)
    ensures Words(WritablePart(writable) + tail) == WritableWords(writable) + Words(tail)
    ensures SetOff(WritablePart(writable) + tail)
  {
    if writable == [] {
      assert WritablePart(writable) + tail == tail && [] + Words(tail) == Words(tail);
    } else {
      WritableKeyIsWord();
      JoinedIsPlain(writable);
      WordsOfKeyed(WRITABLE_KEY, Joined(writable), tail);
    }
  }

  lemma StorePartWords(store: Option<string>, tail: string)
    requires (store.Some? ==> NoWhitespace(store.value)) && SetOff(tail)
    ensures Words(StorePart(store) + tail) == StoreWords(store) + Words(tail)
    ensures SetOff(StorePart(store) + tail)
  {
    if store.None? {
      assert StorePart(store) + tail == tail && [] + Words(tail) == Words(tail);
    } else {
      StoreKeyIsWord();
      WordsOfKeyed(STORE_KEY, store.value, tail);
    }
  }

  lemma TailWords(spec: Spec)
    requires forall i :: 0 <= i < |spec.writable| ==> MountIsPlain(spec.writable[i])
    requires spec.imageStore.Some? ==> NoWhitespace(spec.imageStore.value)
    ensures var tail := StorePart(spec.imageStore) + (WritablePart(spec.writable) + ExtraPart(spec.extra));
            && SetOff(tail)
            && Words(tail) == StoreWords(spec.imageStore) + (WritableWords(spec.writable) + ExtraWords(spec.extra))
  {
    ExtraPartWords(spec.extra);
    WritablePartWords(spec.writable, ExtraPart(spec.extra));
    StorePartWords(spec.imageStore, WritablePart(spec.writable) + ExtraPart(spec.extra));
  }

  lemma AllWords(spec: Spec)
    requires Nameable(spec) && forall i :: 0 <= i < |spec.writable| ==> MountIsPlain(spec.writable[i])
    requires spec.imageStore.Some? ==> NoWhitespace(spec.imageStore.value)
    ensures Words(Cmdline(spec)) ==
              FirstWords(spec)
              + ([OVERLAY] + (StoreWords(spec.imageStore) + (WritableWords(spec.writable) + ExtraWords(spec.extra))))
  {
    var tail := StorePart(spec.imageStore) + (WritablePart(spec.writable) + ExtraPart(spec.extra));
    TailWords(spec);
    OverlayIsWord();
    WordsOfSetOff(OVERLAY, tail);
    FirstWordsAreWords(spec);
    SpacedConcat(FirstWords(spec), OVERLAY, tail);
    WordsOfSpaced(FirstWords(spec), OVERLAY + tail);
  }

  lemma SixWords(a: string, b: string, c: string, d: string, e: string, f: string, more: seq<string>)
    ensures [a, b, c, d, e] + ([f] + more) == [a, b, c, d, e, f] + more
  {
  }

  /** The command line, word for word: the constant ones, slab and volume, then the image store, the
      writable list and the extra arguments, each where it is given. */
  lemma CmdlineWords(spec: Spec)
    requires Nameable(spec) && forall i :: 0 <= i < |spec.writable| ==> MountIsPlain(spec.writable[i])
    requires spec.imageStore.Some? ==> NoWhitespace(spec.imageStore.value)
    ensures Words(Cmdline(spec)) ==
              ["console=ttyS0", "root=/dev/ublkb0", "rd.stormblock.slab=" + (spec.diskDevice + "2"),
               "rd.stormblock.meta=/etc/stormblock/meta", "stormblock.volume=" + spec.volume,
               "rd.stormblock.overlay=tmpfs:1G"]
              + (StoreWords(spec.imageStore) + (WritableWords(spec.writable) + ExtraWords(spec.extra)))
  {
    AllWords(spec);
    SixWords(CONSOLE, ROOT, SlabWord(spec), META, VolumeWord(spec), OVERLAY,
             StoreWords(spec.imageStore) + (WritableWords(spec.writable) + ExtraWords(spec.extra)));
  }

  // ------------------------------------------------------------------ the writable list

  /** The pieces between the commas. */
  function Pieces(s: string): seq<string>
    decreases |s|
  {
    var i := IndexOf(s, ',');
    if i == |s| then [s] else [s[..i]] + Pieces(s[i + 1..])
  }

  lemma PiecesCons(a: string, rest: string)
    requires ',' !in a
    ensures Pieces(a + "," + rest) == [a] + Pieces(rest)
  {
    IndexOfAfter(a, ',', rest);
    var s := a + "," + rest;
    assert s[..|a|] == a && s[|a| + 1..] == rest;
  }

  lemma OnePiece(a: string)
    requires ',' !in a
    ensures Pieces(a) == [a]
  {
    IndexOfIsFirst(a, ',');
  }

  function MountText(m: Mount): string {
    m.volume + ":" + m.mount
  }

  /** One piece a mount, volume and mount point around a colon, in order. */
  lemma {:induction false} JoinedInPieces(mounts: seq<Mount>)
    requires mounts != [] && forall i :: 0 <= i < |mounts| ==> ',' !in mounts[i].volume && ',' !in mounts[i].mount
    ensures Pieces(Joined(mounts)) == seq(|mounts|, i requires 0 <= i < |mounts| => MountText(mounts[i]))
  {
    var first := MountText(mounts[0]);
    assert ',' !in first;
    if |mounts| == 1 {
      OnePiece(first);
    } else {
      JoinedInPieces(mounts[1..]);
      PiecesCons(first, Joined(mounts[1..]));
    }
  }
}
