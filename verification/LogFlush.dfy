/**
 * `RollFileFlush` of log_system/log_src/LogFlush.hpp: a log spread over files that are closed once they are large
 * enough.
 */
module LogFlush {
  import opened Common
  import opened Messages

  const DASH: Byte := 0x2d
  const DOT_LOG: Bytes := [0x2e, 0x6c, 0x6f, 0x67]

  /** The broken-down local time; every field is an int. */
  datatype Time = Time(year: int, mon: int, mday: int, hour: int, min: int, sec: int)

  /** How a file is named, and the size from which it is closed. */
  datatype SinkConfig = SinkConfig(name: (Time, nat) -> Bytes, maxSize: nat)

  /**
   * The open file, if any, its size since it was opened, the next counter, the directory, and the names opened so
   * far.
   */
  datatype Sink = Sink(file: Option<Bytes>, curSize: nat, cnt: nat, disk: map<Bytes, Bytes>, names: seq<Bytes>)

  // ---- File names ----

  function Digit(d: nat): Byte
    requires d < 10
  {
    if d == 0 then 0x30 else if d == 1 then 0x31 else if d == 2 then 0x32 else if d == 3 then 0x33
    else if d == 4 then 0x34 else if d == 5 then 0x35 else if d == 6 then 0x36 else if d == 7 then 0x37
    else if d == 8 then 0x38 else 0x39
  }

  /** `std::to_string` of an unsigned number. */
  function Decimal(n: nat): (s: Bytes)
    ensures s != [] && DASH !in s
  {
    if n < 10 then [Digit(n)] else Decimal(n / 10) + [Digit(n % 10)]
  }

  function ToString(n: int): Bytes {
    if n < 0 then [DASH] + Decimal(-n) else Decimal(n)
  }

  function Stamped(basename: Bytes, t: Time): Bytes {
    basename + ToString(t.year + 1900) + ToString(t.mon + 1) + ToString(t.mday)
    + ToString(t.hour + 1) + ToString(t.min + 1) + ToString(t.sec + 1)
  }

  function LogFileName(basename: Bytes, now: Time, cnt: nat): Bytes {
    Stamped(basename, now) + ([DASH] + Decimal(cnt) + DOT_LOG)
  }

  function RollConfig(basename: Bytes, maxSize: nat): SinkConfig {
    SinkConfig((now: Time, cnt: nat) => LogFileName(basename, now, cnt), maxSize)
  }

  // ---- One flush ----

  function NewSink(disk: map<Bytes, Bytes>): Sink { Sink(None, 0, 1, disk, []) }

  predicate MustOpen(cfg: SinkConfig, s: Sink) { s.file.None? || s.curSize >= cfg.maxSize }

  /** `InitLogFile`: close a full file and open the next one, in append mode. */
  function Opened(cfg: SinkConfig, s: Sink, now: Time): Sink {
    if !MustOpen(cfg, s) then s
    else
      var name := cfg.name(now, s.cnt);
      Sink(Some(name), 0, s.cnt + 1, s.disk[name := if name in s.disk then s.disk[name] else []], s.names + [name])
  }

  predicate Writable(s: Sink) { s.file.Some? ==> s.file.value in s.disk }

  function Flushed(cfg: SinkConfig, s: Sink, data: Bytes, now: Time): Sink
    requires Writable(s)
  {
    var o := Opened(cfg, s, now);
    var name := o.file.value;
    o.(disk := o.disk[name := o.disk[name] + data], curSize := o.curSize + |data|)
  }

  class RollFileFlush {
    const basename: Bytes
    const maxSize: nat
    var file: Option<Bytes>
    var curSize: nat
    var cnt: nat
    var disk: map<Bytes, Bytes>
    ghost var names: seq<Bytes>

    ghost function View(): Sink
      reads this
    {
      Sink(file, curSize, cnt, disk, names)
    }

    ghost const cfg: SinkConfig

    ghost predicate Configured() { cfg == RollConfig(basename, maxSize) }

    constructor (basename: Bytes, maxSize: nat, disk: map<Bytes, Bytes>)
      ensures View() == NewSink(disk) && this.basename == basename && this.maxSize == maxSize && Configured()
    {
      this.basename, this.maxSize, cfg := basename, maxSize, RollConfig(basename, maxSize);
      this.disk := disk;
      file, curSize, cnt, names := None, 0, 1, [];
    }

    method CreateLogFileName(now: Time) returns (filename: Bytes)
      modifies this`cnt
      ensures filename == LogFileName(basename, now, old(cnt)) && cnt == old(cnt) + 1
    {
      filename := basename;
      filename := filename + ToString(now.year + 1900);
      filename := filename + ToString(now.mon + 1);
      filename := filename + ToString(now.mday);
      filename := filename + ToString(now.hour + 1);
      filename := filename + ToString(now.min + 1);
      filename := filename + ToString(now.sec + 1);
      filename := filename + ([DASH] + Decimal(cnt) + DOT_LOG);
      cnt := cnt + 1;
    }

    method InitLogFile(now: Time)
      requires Configured() && Writable(View())
      modifies this
      ensures View() == Opened(cfg, old(View()), now)
    {
      if file.None? || curSize >= maxSize {
        var filename := CreateLogFileName(now);
        file := Some(filename);
        if filename !in disk {
          disk := disk[filename := []];
        }
        assert disk == old(disk)[filename := if filename in old(disk) then old(disk)[filename] else []];
        names := names + [filename];
        curSize := 0;
      }
    }

    method Flush(data: Bytes, now: Time)
      requires Configured() && Writable(View())
      modifies this
      ensures View() == Flushed(cfg, old(View()), data, now) && Writable(View())
    {
      InitLogFile(now);
      disk := disk[file.value := disk[file.value] + data];
      curSize := curSize + |data|;
    }
  }

  /**
   * `StdoutFlush`, and `FileFlush` with its one file, open from the start or, if that failed, never. What is
   * recorded is what was written to it.
   */
  class StreamFlush {
    const open: bool
    var written: Bytes

    constructor (open: bool)
      ensures this.open == open && written == []
    {
      this.open, written := open, [];
    }

    method Flush(data: Bytes)
      modifies this
      ensures written == if open then old(written) + data else old(written)
    {
      if !open {
        return;
      }
      written := written + data;
    }
  }

  // ---- Names never repeat ----

  lemma DigitInjective(a: nat, b: nat)
    requires a < 10 && b < 10 && Digit(a) == Digit(b)
    ensures a == b
  {
  }

  lemma {:induction false} DecimalInjective(a: nat, b: nat)
    requires Decimal(a) == Decimal(b)
    ensures a == b
  {
    var s, t := Decimal(a), Decimal(b);
    assert s[|s| - 1] == Digit(a % 10) && t[|t| - 1] == Digit(b % 10);
    DigitInjective(a % 10, b % 10);
    assert (|s| == 1 <==> a < 10) && (|t| == 1 <==> b < 10);
    if a >= 10 {
      assert s[..|s| - 1] == Decimal(a / 10) && t[..|t| - 1] == Decimal(b / 10);
      DecimalInjective(a / 10, b / 10);
    }
  }

  // ---- What the names say ----

  function DigitValue(c: Byte): Option<nat> {
    if c == 0x30 then Some(0) else if c == 0x31 then Some(1) else if c == 0x32 then Some(2)
    else if c == 0x33 then Some(3) else if c == 0x34 then Some(4) else if c == 0x35 then Some(5)
    else if c == 0x36 then Some(6) else if c == 0x37 then Some(7) else if c == 0x38 then Some(8)
    else if c == 0x39 then Some(9) else None
  }

  /** The value of a text of digits, read from left to right in base ten. */
  function Value(s: Bytes): Option<nat> {
    if s == [] then Some(0)
    else
      var front, last := Value(s[..|s| - 1]), DigitValue(s[|s| - 1]);
      if front.None? || last.None? then None else Some(front.value * 10 + last.value)
  }

  /** A number as written by hand: no empty text, no leading zero, ... */
  predicate SpellsNat(s: Bytes, n: nat) {
    s != [] && Value(s) == Some(n) && (|s| > 1 ==> s[0] != 0x30)
  }

  /** ... and a minus sign if it is negative. */
  predicate Spells(s: Bytes, n: int) {
    if n < 0 then s != [] && s[0] == DASH && SpellsNat(s[1..], -n) else SpellsNat(s, n)
  }

  lemma DigitIs(d: nat)
    requires d < 10
    ensures DigitValue(Digit(d)) == Some(d) && (d > 0 ==> Digit(d) != 0x30)
  {
  }

  lemma {:induction false} DecimalSpells(n: nat)
    ensures SpellsNat(Decimal(n), n) && (n > 0 ==> Decimal(n)[0] != 0x30)
  {
    var s := Decimal(n);
    DigitIs(n % 10);
    if n >= 10 {
      DecimalSpells(n / 10);
      assert s[..|s| - 1] == Decimal(n / 10) && s[0] == Decimal(n / 10)[0];
    } else {
      assert s[..|s| - 1] == [];
    }
  }

  lemma ToStringSpells(n: int)
    ensures Spells(ToString(n), n)
  {
    DecimalSpells(if n < 0 then -n else n);
    if n < 0 {
      assert ToString(n)[1..] == Decimal(-n);
    }
  }

  /** Six numbers in a row. */
  ghost predicate SpellsSix(s: Bytes, n0: int, n1: int, n2: int, n3: int, n4: int, n5: int) {
    exists t0, t1, t2, t3, t4, t5 ::
      && s == t0 + t1 + t2 + t3 + t4 + t5 && Spells(t0, n0) && Spells(t1, n1) && Spells(t2, n2)
      && Spells(t3, n3) && Spells(t4, n4) && Spells(t5, n5)
  }

  /**
   * The name of a log file: the base name; year, month, day, hour, minute and second, the last three one
   * higher than the clock has them; a dash, the last one; the counter; and ".log".
   */
  lemma FileNameSays(basename: Bytes, t: Time, cnt: nat) returns (stamp: Bytes, number: Bytes)
    ensures LogFileName(basename, t, cnt) == basename + stamp + [DASH] + number + Text(".log")
    ensures SpellsSix(stamp, t.year + 1900, t.mon + 1, t.mday, t.hour + 1, t.min + 1, t.sec + 1)
    ensures SpellsNat(number, cnt) && DASH !in number && DASH == Ascii('-')
  {
    number := Decimal(cnt);
    DecimalSpells(cnt);
    var t0, t1, t2 := ToString(t.year + 1900), ToString(t.mon + 1), ToString(t.mday);
    var t3, t4, t5 := ToString(t.hour + 1), ToString(t.min + 1), ToString(t.sec + 1);
    stamp := t0 + t1 + t2 + t3 + t4 + t5;
    ToStringSpells(t.year + 1900);
    ToStringSpells(t.mon + 1);
    ToStringSpells(t.mday);
    ToStringSpells(t.hour + 1);
    ToStringSpells(t.min + 1);
    ToStringSpells(t.sec + 1);
    assert SpellsSix(stamp, t.year + 1900, t.mon + 1, t.mday, t.hour + 1, t.min + 1, t.sec + 1);
    DotLog();
    Reassociate(basename, t0, t1, t2, t3, t4, t5, number);
  }

  lemma DotLog()
    ensures DOT_LOG == Text(".log") && DASH == Ascii('-')
  {
    assert |Text(".log")| == 4 && Text(".log")[0] == 0x2e && Text(".log")[1] == 0x6c;
    assert Text(".log")[2] == 0x6f && Text(".log")[3] == 0x67;
  }

  lemma Reassociate(a: Bytes, t0: Bytes, t1: Bytes, t2: Bytes, t3: Bytes, t4: Bytes, t5: Bytes, number: Bytes)
    ensures a + t0 + t1 + t2 + t3 + t4 + t5 + ([DASH] + number + DOT_LOG)
      == a + (t0 + t1 + t2 + t3 + t4 + t5) + [DASH] + number + DOT_LOG
  {
  }

  /** What follows the last dash determines the counter. */
  lemma SameTail(p: Bytes, a: Bytes, q: Bytes, b: Bytes)
    requires p + ([DASH] + a + DOT_LOG) == q + ([DASH] + b + DOT_LOG) && DASH !in a && DASH !in b
    ensures a == b
  {
    var s := p + ([DASH] + a + DOT_LOG);
    LastDash(p, a);
    LastDash(q, b);
    assert |p| == |q|;
    assert a == s[|p| + 1..|s| - 4] && b == s[|q| + 1..|s| - 4];
  }

  lemma LastDash(p: Bytes, a: Bytes)
    requires DASH !in a
    ensures
      var s := p + ([DASH] + a + DOT_LOG);
      s[|p|] == DASH && forall i :: |p| < i < |s| ==> s[i] != DASH
  {
    var s := p + ([DASH] + a + DOT_LOG);
    forall i | |p| < i < |s| ensures s[i] != DASH {
      if i - |p| <= |a| {
        assert s[i] == a[i - |p| - 1];
      } else {
        assert s[i] == DOT_LOG[i - |p| - 1 - |a|];
      }
    }
  }

  ghost predicate NamesDiffer(cfg: SinkConfig) {
    forall t1, c1, t2, c2 :: cfg.name(t1, c1) == cfg.name(t2, c2) ==> c1 == c2
  }

  /** Files opened under different counters have different names, whatever the clock says. */
  lemma LogFileNamesDiffer(basename: Bytes, maxSize: nat)
    ensures NamesDiffer(RollConfig(basename, maxSize))
  {
    var cfg := RollConfig(basename, maxSize);
    forall t1, c1, t2, c2 | cfg.name(t1, c1) == cfg.name(t2, c2) ensures c1 == c2 {
      SameTail(Stamped(basename, t1), Decimal(c1), Stamped(basename, t2), Decimal(c2));
      DecimalInjective(c1, c2);
    }
  }
}
