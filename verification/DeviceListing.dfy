/**
  Reading the list of traced devices: names printed one per line into a bounded
  buffer, then copied to the reader.
 */
module DeviceListing {
  import opened Common
  import opened DeviceList

  const DISK_NAME_LEN: nat := 32
  const NO_MEMORY_FOR_NAMES: int := -1

  function Line(name: string): string {
    name + "\n"
  }

  /** The complete listing. */
  function Lines(names: seq<string>): string {
    if names == [] then "" else Lines(names[..|names| - 1]) + Line(names[|names| - 1])
  }

  /** What a reader does with a listing: cut it at the newlines. */
  function Split(text: string, word: string): seq<string>
    decreases |text|
  {
    if text == "" then []
    else if text[0] == '\n' then [word] + Split(text[1..], "")
    else Split(text[1..], word + [text[0]])
  }

  ghost predicate Printable(names: seq<string>) {
    forall i :: 0 <= i < |names| ==> '\n' !in names[i]
  }

  lemma {:induction false} SplitWord(name: string, rest: string, word: string)
    requires '\n' !in name
    ensures Split(Line(name) + rest, word) == [word + name] + Split(rest, "")
    decreases |name|
  {
    var text := Line(name) + rest;
    if name == "" {
      assert text[1..] == rest;
      assert word + name == word;
    } else {
      assert text[1..] == Line(name[1..]) + rest;
      SplitWord(name[1..], rest, word + [name[0]]);
      assert word + [name[0]] + name[1..] == word + name;
    }
  }

  lemma {:induction false} LinesFirst(names: seq<string>)
    requires names != []
    ensures Lines(names) == Line(names[0]) + Lines(names[1..])
    decreases |names|
  {
    var k := |names| - 1;
    if k == 0 {
      assert names[..0] == [] && names[1..] == [];
    } else {
      var mid, last := names[1..][..k - 1], names[k];
      LinesFirst(names[..k]);
      assert names[..k][1..] == mid && names[1..][k - 1] == last;
      assert (Line(names[0]) + Lines(mid)) + Line(last) == Line(names[0]) + (Lines(mid) + Line(last));
    }
  }

  /** A complete listing gives back the names, in order. */
  lemma {:induction false} SplitRecovers(names: seq<string>)
    requires Printable(names)
    ensures Split(Lines(names), "") == names
    decreases |names|
  {
    if names != [] {
      LinesFirst(names);
      SplitWord(names[0], Lines(names[1..]), "");
      SplitRecovers(names[1..]);
      assert "" + names[0] == names[0];
      assert [names[0]] + names[1..] == names;
    }
  }

  /** How much of a text of `n` characters fits with its terminator. */
  function Printed(n: nat, left: nat): (w: nat)
    requires left >= 1
    ensures w <= n && w < left
  {
    if n < left then n else left - 1
  }

  /** `buf` with `text` written at `pos`, the rest as it was. */
  function Overwrite(buf: string, pos: nat, text: string): (r: string)
    requires pos + |text| <= |buf|
    ensures |r| == |buf|
    ensures forall i :: 0 <= i < |buf| ==> r[i] == if pos <= i < pos + |text| then text[i - pos] else buf[i]
  {
    buf[..pos] + text + buf[pos + |text|..]
  }

  lemma {:induction false} OverwriteMore(buf: string, pos: nat, text: string, c: char)
    requires pos + |text| < |buf|
    ensures Overwrite(buf, pos, text)[pos + |text| := c] == Overwrite(buf, pos, text + [c])
  {}

  /** `snprintf(buf + pos, left, "%s\n", name)`: as much of the line as fits, a
      terminator, nothing else touched, and the whole length as the answer. */
  method PrintLine(buf: array<char>, pos: nat, left: nat, name: string) returns (n: nat)
    requires left >= 1 && pos + left <= buf.Length
    modifies buf
    ensures n == |name| + 1
    ensures buf[..] == Overwrite(old(buf[..]), pos, Line(name)[..Printed(n, left)] + ['\0'])
  {
    var text := Line(name);
    ghost var was := buf[..];
    n := |text|;
    var i := 0;
    assert Overwrite(was, pos, text[..0]) == was;
    while i < n && i < left - 1
      invariant 0 <= i <= n && i <= left - 1
      invariant buf[..] == Overwrite(was, pos, text[..i])
    {
      OverwriteMore(was, pos, text[..i], text[i]);
      assert text[..i + 1] == text[..i] + [text[i]];
      Store(buf, pos + i, text[i]);
      i := i + 1;
    }
    OverwriteMore(was, pos, text[..i], '\0');
    Store(buf, pos + i, '\0');
  }

  method Store(buf: array<char>, at: nat, c: char)
    requires at < buf.Length
    modifies buf
    ensures buf[..] == old(buf[..])[at := c]
  {
    buf[at] := c;
  }

  ghost predicate ShortNames(names: seq<string>) {
    forall i :: 0 <= i < |names| ==> |names[i]| < DISK_NAME_LEN
  }

  function Names(s: seq<Bdev>): (r: seq<string>)
    ensures |r| == |s| && forall i :: 0 <= i < |s| ==> r[i] == s[i].name
  {
    seq(|s|, i requires 0 <= i < |s| => s[i].name)
  }

  /** `iotrace_bdev_list`: the names of the traced devices in list order, from one
      CPU's array, or an error if any disk name is not terminated within its
      field. */
  method CopyNames(t: DeviceTable, cpu: nat) returns (copied: Option<seq<string>>)
    requires t.Valid() && cpu < t.list.Length0
    ensures copied == if ShortNames(Names(t.devices)) then Some(Names(t.devices)) else None
  {
    ghost var names := Names(t.devices);
    assert Holds(t.Row(cpu), t.devices);
    var list: seq<string> := [];
    var i := 0;
    while i < t.num
      invariant i <= t.num && list == names[..i]
      invariant forall k :: 0 <= k < i ==> |names[k]| < DISK_NAME_LEN
    {
      assert t.Row(cpu)[i] == Some(t.devices[i]);
      var name := t.list[cpu, i].value.name;
      if |name| >= DISK_NAME_LEN {
        assert names[i] == name;
        return None;
      }
      list := list + [name];
      i := i + 1;
    }
    assert names[..t.num] == names;
    copied := Some(list);
  }

  /** `_list_dev_snprintf`: the listing and its length if it fits with its
      terminator, otherwise the size of the buffer. */
  method PrintList(buf: array<char>, t: DeviceTable, cpu: nat, granted: bool) returns (result: int)
    requires buf.Length >= 1 && t.Valid() && cpu < t.list.Length0
    modifies buf
    ensures !granted ==> result == NO_MEMORY_FOR_NAMES
    ensures granted && !ShortNames(Names(t.devices)) ==> result == ENOSPC
    ensures granted && ShortNames(Names(t.devices)) ==> PrintedList(buf[..], Names(t.devices), result)
  {
    if !granted { return NO_MEMORY_FOR_NAMES; }
    var copied := CopyNames(t, cpu);
    if copied.None? { return ENOSPC; }
    result := PrintLines(buf, copied.value);
  }

  /** `text` holds the whole listing and `n` is its length, or it does not fit. */
  ghost predicate PrintedList(text: string, names: seq<string>, n: int) {
    && n == (if |Lines(names)| < |text| then |Lines(names)| else |text|)
    && (n < |text| ==> text[..n] == Lines(names))
  }

  /** The loop of `_list_dev_snprintf` over the names copied. */
  method PrintLines(buf: array<char>, names: seq<string>) returns (pos: nat)
    requires buf.Length >= 1
    modifies buf
    ensures PrintedList(buf[..], names, pos)
  {
    var left, idx := buf.Length, 0;
    pos := 0;
    buf[0] := '\0';
    while idx < |names|
      invariant 0 <= idx <= |names| && pos + left == buf.Length && left >= 1
      invariant pos == |Lines(names[..idx])| && buf[..pos] == Lines(names[..idx])
    {
      var n := PrintLine(buf, pos, left, names[idx]);
      if n < left { Appended(buf[..], Lines(names[..idx]), Line(names[idx])); }
      assert names[..idx + 1][..idx] == names[..idx];
      var bytes := if n <= left then n else left;
      left := left - bytes;
      pos := pos + bytes;
      idx := idx + 1;
      if left == 0 {
        LinesPrefix(names, idx);
        return;
      }
    }
    assert names[..|names|] == names;
  }

  lemma {:induction false} Appended(all: string, a: string, b: string)
    requires a + b <= all
    ensures all[..|a| + |b|] == a + b
  {}

  lemma {:induction false} LinesPrefix(names: seq<string>, k: nat)
    requires k <= |names|
    ensures |Lines(names[..k])| <= |Lines(names)|
    decreases |names|
  {
    var n := |names| - 1;
    if k <= n {
      LinesPrefix(names[..n], k);
      assert names[..n][..k] == names[..k];
    } else {
      assert names[..k] == names;
    }
  }

  /** What the kernel may refuse on the way: access to the reader's buffer, the
      two allocations, the final copy. */
  datatype Outcomes = Outcomes(accessible: bool, buffer: bool, namesAllocated: bool, copied: bool)

  /** The result of reading a listing of `names` into `space` characters. */
  ghost function ReadCode(names: seq<string>, space: nat, o: Outcomes): int {
    if !o.accessible then EACCES
    else if !o.buffer then ENOMEM
    else if !o.namesAllocated then NO_MEMORY_FOR_NAMES
    else if !ShortNames(names) || |Lines(names)| > space then ENOSPC
    else if Lines(names) != "" && !o.copied then EFAULT
    else |Lines(names)|
  }

  /** `iotrace_mngt_read` on the device list: `seen` is what reaches the reader.
      A result that is not an error is the complete listing, never a part, and
      32 name lengths of space are always enough. */
  method ReadList(t: DeviceTable, cpu: nat, position: nat, space: nat, o: Outcomes)
    returns (result: int, seen: string, next: nat)
    requires t.Valid() && cpu < t.list.Length0
    ensures position > 0 ==> result == 0 && seen == "" && next == position
    ensures position == 0 ==> result == ReadCode(Names(t.devices), space, o)
    ensures position == 0 && result >= 0 ==> seen == Lines(Names(t.devices)) && result == next == |seen| <= space
    ensures result < 0 ==> seen == "" && next == position
    ensures space >= MAX_DEVICES * DISK_NAME_LEN && ShortNames(Names(t.devices)) ==> result != ENOSPC
  {
    assert Holds(t.Row(cpu), t.devices);
    if ShortNames(Names(t.devices)) { RoomForAll(Names(t.devices)); }
    seen, next := "", position;
    if position > 0 { return 0, "", position; }
    if !o.accessible { return EACCES, "", position; }
    var count := ListSpace(space) + 1;
    if !o.buffer { return ENOMEM, "", position; }
    var buf := new char[count](_ => '\0');
    result := PrintList(buf, t, cpu, o.namesAllocated);
    if result < 0 { return; }
    if result >= count { return ENOSPC, "", position; }
    if result != 0 && !o.copied { return EFAULT, "", position; }
    seen := buf[..result];
    next := result;
  }

  /** Characters of the listing the internal buffer has room for. */
  function ListSpace(space: nat): nat {
    if MAX_DEVICES * DISK_NAME_LEN <= space then MAX_DEVICES * DISK_NAME_LEN else space
  }

  lemma {:induction false} LinesLength(names: seq<string>)
    requires ShortNames(names)
    ensures |Lines(names)| <= |names| * DISK_NAME_LEN
    decreases |names|
  {
    if names != [] { LinesLength(names[..|names| - 1]); }
  }

  /** 32 times the name length always has room. */
  lemma {:induction false} RoomForAll(names: seq<string>)
    requires ShortNames(names) && |names| <= MAX_DEVICES
    ensures |Lines(names)| <= MAX_DEVICES * DISK_NAME_LEN
  {
    LinesLength(names);
  }

  /** Each failure has its own code, in the order they are met; what is left is
      the length of the listing. */
  lemma {:induction false} ReadCodes(names: seq<string>, space: nat, o: Outcomes)
    ensures var code := ReadCode(names, space, o);
            && (code == EACCES <==> !o.accessible)
            && (code == ENOMEM <==> o.accessible && !o.buffer)
            && (code == NO_MEMORY_FOR_NAMES <==> o.accessible && o.buffer && !o.namesAllocated)
            && (code == ENOSPC <==> && o.accessible && o.buffer && o.namesAllocated
                                    && !(ShortNames(names) && |Lines(names)| <= space))
            && (code == EFAULT <==> && o.accessible && o.buffer && o.namesAllocated && !o.copied
                                    && ShortNames(names) && 0 < |Lines(names)| <= space)
            && (code >= 0 <==> && o.accessible && o.buffer && o.namesAllocated && (o.copied || Lines(names) == "")
                               && ShortNames(names) && |Lines(names)| <= space)
            && (code >= 0 ==> code == |Lines(names)|)
  {}
}
