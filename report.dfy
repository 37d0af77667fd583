/**
 * The PS3 controller's HID input report and its decoder (`UsbManager::process`
 * in src/application.cpp). A report is the 49-byte buffer that one HID
 * GET_REPORT control transfer fills; the decoder turns it into a `Ps3`
 * snapshot by looking at bytes 2, 3, 4, 6-9 and 48 only.
 */
module Report {

  /** Size of the input-report buffer the source declares. */
  const ReportLength: nat := 49

  predicate IsByte(x: int) {
    0 <= x < 256
  }

  /** A filled input-report buffer: exactly 49 unsigned 8-bit values. */
  predicate IsReport(r: seq<int>) {
    |r| == ReportLength && forall i :: 0 <= i < |r| ==> IsByte(r[i])
  }

  /** The source's `ps3` struct: 17 buttons, four stick axes and the acceleration. */
  datatype Ps3 = Ps3(
    select: bool, start: bool,
    up: bool, down: bool, right: bool, left: bool,
    triangle: bool, circle: bool, square: bool, cross: bool,
    leftOne: bool, rightOne: bool, leftTwo: bool, rightTwo: bool,
    leftThree: bool, rightThree: bool,
    psButton: bool,
    leftAnalogX: int, leftAnalogY: int, rightAnalogX: int, rightAnalogY: int,
    acceleration: int)

  /** The value-initialised struct (`ps3 data {}`): every button up, every number 0. */
  const Released: Ps3 :=
    Ps3(false, false, false, false, false, false, false, false, false, false,
        false, false, false, false, false, false, false, 0, 0, 0, 0, 0)

  /** The single-bit codes a button group byte is compared against, lowest bit first. */
  const Codes: seq<int> := [0x01, 0x02, 0x04, 0x08, 0x10, 0x20, 0x40, 0x80]

  /** The buttons reported in byte 2, listed in the order of their codes. */
  function SystemGroup(p: Ps3): seq<bool> {
    [p.select, p.leftThree, p.rightThree, p.start, p.up, p.right, p.down, p.left]
  }

  /** The buttons reported in byte 3, listed in the order of their codes. */
  function FaceGroup(p: Ps3): seq<bool> {
    [p.leftTwo, p.rightTwo, p.leftOne, p.rightOne, p.triangle, p.circle, p.cross, p.square]
  }

  predicate AtMostOne(s: seq<bool>) {
    forall i, j :: 0 <= i < |s| && 0 <= j < |s| && s[i] && s[j] ==> i == j
  }

  function CountTrue(s: seq<bool>): nat {
    if s == [] then 0 else (if s[0] then 1 else 0) + CountTrue(s[1..])
  }

  /**
   * What every decoded snapshot satisfies: each group byte names at most one
   * button, and the numbers are unsigned bytes.
   */
  predicate WellFormed(p: Ps3) {
    AtMostOne(SystemGroup(p)) && AtMostOne(FaceGroup(p)) &&
    IsByte(p.leftAnalogX) && IsByte(p.leftAnalogY) &&
    IsByte(p.rightAnalogX) && IsByte(p.rightAnalogY) &&
    IsByte(p.acceleration)
  }

  /**
   * The decoder. A group button is pressed only when its byte EQUALS the
   * button's code, so two buttons of one group never show as pressed together.
   * The acceleration is stored unsigned; only the source's console output
   * reinterprets it as `int8_t`.
   */
  function Decode(r: seq<int>): (p: Ps3)
    requires IsReport(r)
    ensures IsByte(p.leftAnalogX) && IsByte(p.leftAnalogY)
    ensures IsByte(p.rightAnalogX) && IsByte(p.rightAnalogY) && IsByte(p.acceleration)
  {
    Ps3(
      select := r[2] == 0x01,
      start := r[2] == 0x08,
      up := r[2] == 0x10,
      down := r[2] == 0x40,
      right := r[2] == 0x20,
      left := r[2] == 0x80,
      triangle := r[3] == 0x10,
      circle := r[3] == 0x20,
      square := r[3] == 0x80,
      cross := r[3] == 0x40,
      leftOne := r[3] == 0x04,
      rightOne := r[3] == 0x08,
      leftTwo := r[3] == 0x01,
      rightTwo := r[3] == 0x02,
      leftThree := r[2] == 0x02,
      rightThree := r[2] == 0x04,
      psButton := r[4] != 0,
      leftAnalogX := r[6],
      leftAnalogY := r[7],
      rightAnalogX := r[8],
      rightAnalogY := r[9],
      acceleration := r[48])
  }

  /** The code of the one pressed button of a group, 0 when none is pressed. */
  function GroupCode(s: seq<bool>): int
    requires |s| == 8
  {
    if s[0] then Codes[0]
    else if s[1] then Codes[1]
    else if s[2] then Codes[2]
    else if s[3] then Codes[3]
    else if s[4] then Codes[4]
    else if s[5] then Codes[5]
    else if s[6] then Codes[6]
    else if s[7] then Codes[7]
    else 0
  }

  /**
   * A reference encoder: the canonical report whose decoding is `p`
   * (bytes the decoder does not read are 0).
   */
  function Encode(p: Ps3): (r: seq<int>)
    requires WellFormed(p)
    ensures IsReport(r)
  {
    [0, 0, GroupCode(SystemGroup(p)), GroupCode(FaceGroup(p)), if p.psButton then 1 else 0, 0,
     p.leftAnalogX, p.leftAnalogY, p.rightAnalogX, p.rightAnalogY]
    + seq(38, _ => 0) + [p.acceleration]
  }

  /** What the decoder keeps of a group byte: the byte if it is a known code, 0 otherwise. */
  function KnownCode(b: int): int {
    if b in Codes then b else 0
  }

  /** Every decoded snapshot satisfies the snapshot invariant. */
  lemma DecodeWellFormed(r: seq<int>)
    requires IsReport(r)
    ensures WellFormed(Decode(r))
  {
  }

  /** Button k of each group is pressed exactly when its byte equals the k-th code. */
  lemma DecodeGroups(r: seq<int>)
    requires IsReport(r)
    ensures forall k :: 0 <= k < 8 ==> (SystemGroup(Decode(r))[k] <==> r[2] == Codes[k])
    ensures forall k :: 0 <= k < 8 ==> (FaceGroup(Decode(r))[k] <==> r[3] == Codes[k])
  {
  }

  lemma {:induction false} CountOfAtMostOne(s: seq<bool>)
    requires AtMostOne(s)
    ensures CountTrue(s) == if exists k :: 0 <= k < |s| && s[k] then 1 else 0
  {
    if s != [] {
      var t := s[1..];
      assert AtMostOne(t) by {
        forall i, j | 0 <= i < |t| && 0 <= j < |t| && t[i] && t[j] ensures i == j {
          assert s[i + 1] && s[j + 1];
        }
      }
      CountOfAtMostOne(t);
      if s[0] {
        assert forall k :: 0 <= k < |t| ==> t[k] == s[k + 1];
      } else {
        if exists k :: 0 <= k < |s| && s[k] {
          var k :| 0 <= k < |s| && s[k];
          assert t[k - 1];
        }
        if exists k :: 0 <= k < |t| && t[k] {
          var k :| 0 <= k < |t| && t[k];
          assert s[k + 1];
        }
      }
    }
  }

  /**
   * A known code in a group byte presses exactly one button of that group;
   * any other value presses none.
   */
  lemma DecodeExactlyOne(r: seq<int>)
    requires IsReport(r)
    ensures CountTrue(SystemGroup(Decode(r))) == if r[2] in Codes then 1 else 0
    ensures CountTrue(FaceGroup(Decode(r))) == if r[3] in Codes then 1 else 0
  {
    var p := Decode(r);
    DecodeWellFormed(r);
    DecodeGroups(r);
    CountOfAtMostOne(SystemGroup(p));
    CountOfAtMostOne(FaceGroup(p));
    if r[2] in Codes {
      var k :| 0 <= k < 8 && Codes[k] == r[2];
      assert SystemGroup(p)[k];
    }
    if r[3] in Codes {
      var k :| 0 <= k < 8 && Codes[k] == r[3];
      assert FaceGroup(p)[k];
    }
  }

  lemma GroupCodeMatches(s: seq<bool>)
    requires |s| == 8 && AtMostOne(s)
    ensures forall k :: 0 <= k < 8 ==> (GroupCode(s) == Codes[k] <==> s[k])
  {
  }

  /** Decoding the reference encoding gives back every well-formed snapshot. */
  lemma DecodeEncode(p: Ps3)
    requires WellFormed(p)
    ensures Decode(Encode(p)) == p
  {
    var e := Encode(p);
    GroupCodeMatches(SystemGroup(p));
    GroupCodeMatches(FaceGroup(p));
    DecodeGroups(e);
    assert e[2] == GroupCode(SystemGroup(p)) && e[3] == GroupCode(FaceGroup(p));
    assert e[4] == (if p.psButton then 1 else 0);
    assert e[6] == p.leftAnalogX && e[7] == p.leftAnalogY;
    assert e[8] == p.rightAnalogX && e[9] == p.rightAnalogY && e[48] == p.acceleration;
    assert SystemGroup(Decode(e)) == SystemGroup(p);
    assert FaceGroup(Decode(e)) == FaceGroup(p);
  }

  /**
   * The decoder reads bytes 2, 3, 4, 6-9 and 48 and nothing else, and it
   * tells apart exactly the reports that differ in a known group code, the
   * truth of byte 4, a stick byte or the acceleration byte.
   */
  lemma DecodeDeterminedBy(r1: seq<int>, r2: seq<int>)
    requires IsReport(r1) && IsReport(r2)
    ensures Decode(r1) == Decode(r2) <==>
      KnownCode(r1[2]) == KnownCode(r2[2]) && KnownCode(r1[3]) == KnownCode(r2[3]) &&
      (r1[4] != 0) == (r2[4] != 0) && r1[6..10] == r2[6..10] && r1[48] == r2[48]
  {
    DecodeGroups(r1);
    DecodeGroups(r2);
    var p1, p2 := Decode(r1), Decode(r2);
    if p1 == p2 {
      assert SystemGroup(p1) == SystemGroup(p2) && FaceGroup(p1) == FaceGroup(p2);
      assert r1[6..10] == [r1[6], r1[7], r1[8], r1[9]];
      assert r2[6..10] == [r2[6], r2[7], r2[8], r2[9]];
    } else {
      if r1[6..10] == r2[6..10] {
        assert r1[6] == r1[6..10][0] && r1[7] == r1[6..10][1];
        assert r1[8] == r1[6..10][2] && r1[9] == r1[6..10][3];
      }
    }
  }

  /** Re-encoding a decoded report keeps the known codes and the bytes the snapshot stores. */
  lemma EncodeDecode(r: seq<int>)
    requires IsReport(r)
    ensures var e := Encode(Decode(r));
      e[2] == KnownCode(r[2]) && e[3] == KnownCode(r[3]) && (e[4] != 0 <==> r[4] != 0) &&
      e[6..10] == r[6..10] && e[48] == r[48]
  {
    var p := Decode(r);
    DecodeWellFormed(r);
    DecodeGroups(r);
    GroupCodeMatches(SystemGroup(p));
    GroupCodeMatches(FaceGroup(p));
    DecodeEncode(p);
    DecodeDeterminedBy(Encode(p), r);
  }
}
