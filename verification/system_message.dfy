/** The trimming step of `CSphereError::GetSystemErrorMessage` (Windows
    build): after the system has written `nChars` characters of message text
    for an error code, trailing line terminators are overwritten with NUL and
    the count of retained characters is returned. The system lookup itself is
    not modelled; its output is the `buf` parameter. */
module SystemMessage {
  import opened Word

  predicate IsLineEnd(c: char) {
    c == '\n' || c == '\r'
  }

  /** The message has at least one character that is not a line terminator. */
  predicate HasText(buf: string) {
    exists i :: 0 <= i < |buf| && !IsLineEnd(buf[i])
  }

  /** Reference definition: the length of `buf` once every trailing
      line terminator is dropped. */
  function TrimmedLength(buf: string): (k: nat)
    ensures k <= |buf|
    ensures forall i :: k <= i < |buf| ==> IsLineEnd(buf[i])
    ensures k > 0 ==> !IsLineEnd(buf[k - 1])
    ensures k == 0 <==> !HasText(buf)
    decreases |buf|
  {
    if |buf| == 0 then 0
    else if IsLineEnd(buf[|buf| - 1]) then
      var k := TrimmedLength(buf[..|buf| - 1]);
      assert forall i :: 0 <= i < |buf| - 1 ==> buf[..|buf| - 1][i] == buf[i];
      k
    else |buf|
  }

  function Nuls(n: nat): (z: string)
    ensures |z| == n
    ensures forall i :: 0 <= i < n ==> z[i] == '\0'
  {
    seq(n, _ => '\0')
  }

  /** The outcome of the loop as the source writes it: either it stops with a
      count, or its unsigned index has wrapped to `index` and the next loop
      test reads `buf[index]`, outside the buffer, holding `text` as the loop
      has left it. The model stops at that
      first out-of-bounds read: what the loop does afterwards depends on
      memory the model does not hold. */
  datatype TrimRun =
    | Trimmed(text: string, count: nat)
    | ReadPastBuffer(text: string, index: nat)

  /** The loop exactly as written: the index is a DWORD, so the guard
      `index >= 0` never fails and decrementing zero wraps to 0xFFFFFFFF. The
      message is shorter than 0xFFFFFFFF characters (the caller's buffer holds
      1024), so a wrapped index always lies outside it. */
  method TrimAsWritten(buf: string) returns (r: TrimRun)
    requires |buf| < 0xFFFF_FFFF
    ensures |buf| == 0 ==> r == Trimmed(buf, 0)
    ensures HasText(buf) ==>
      r == Trimmed(buf[..TrimmedLength(buf)] + Nuls(|buf| - TrimmedLength(buf)), TrimmedLength(buf))
    ensures |buf| > 0 && !HasText(buf) ==> r == ReadPastBuffer(Nuls(|buf|), 0xFFFF_FFFF)
  {
    if |buf| == 0 {
      return Trimmed(buf, 0);
    }
    var out := buf;
    var index: u32 := |buf| - 1;
    while index < |out| && IsLineEnd(out[index])
      invariant |out| == |buf|
      invariant index < |buf| || index == 0xFFFF_FFFF
      invariant index < |buf| ==> out[..index + 1] == buf[..index + 1]
      invariant index < |buf| ==> forall i :: index < i < |buf| ==> out[i] == '\0' && IsLineEnd(buf[i])
      invariant index == 0xFFFF_FFFF ==> forall i :: 0 <= i < |buf| ==> out[i] == '\0' && IsLineEnd(buf[i])
      decreases if index < |out| then index + 1 else 0
    {
      out := out[index := '\0'];
      index := SubWrap(index, 1);
    }
    if index < |out| {
      assert !IsLineEnd(buf[index]);
      assert TrimmedLength(buf) == index + 1;
      assert out == buf[..index + 1] + Nuls(|buf| - (index + 1));
      r := Trimmed(out, AddWrap(index, 1));
    } else {
      assert !HasText(buf);
      assert out == Nuls(|buf|);
      r := ReadPastBuffer(out, index);
    }
  }

  /** Counterexample: a message made only of a line break runs the as-written
      loop past the start of the buffer: both characters are overwritten with
      NUL, then the guard reads `buf[0xFFFFFFFF]`. */
  method LineBreakOnlyReadsPastBuffer() returns (r: TrimRun)
    ensures r == ReadPastBuffer("\0\0", 0xFFFF_FFFF)
  {
    assert !HasText("\r\n") by {
      forall i | 0 <= i < 2 ensures IsLineEnd("\r\n"[i]) { }
    }
    r := TrimAsWritten("\r\n");
  }

  /** The corrected loop: it stops at the start of the message, so a message
      of line terminators only trims to zero characters, which the caller
      reads as "no system text". */
  method TrimTrailingNewlines(buf: string) returns (out: string, count: nat)
    ensures count == TrimmedLength(buf)
    ensures out == buf[..count] + Nuls(|buf| - count)
  {
    out := buf;
    count := |buf|;
    while count > 0 && IsLineEnd(out[count - 1])
      invariant count <= |buf| && |out| == |buf|
      invariant out[..count] == buf[..count]
      invariant forall i :: count <= i < |buf| ==> out[i] == '\0' && IsLineEnd(buf[i])
    {
      out := out[count - 1 := '\0'];
      count := count - 1;
    }
    assert count == TrimmedLength(buf);
    assert out == buf[..count] + Nuls(|buf| - count);
  }

  /** Where the message has text, the corrected loop and the loop as written
      agree on both the trimmed buffer and the count. */
  method TrimAgreesWhereDefined(buf: string) returns (asWritten: TrimRun, out: string, count: nat)
    requires |buf| < 0xFFFF_FFFF
    requires HasText(buf)
    ensures asWritten == Trimmed(out, count)
    ensures 0 < count <= |buf|
  {
    asWritten := TrimAsWritten(buf);
    out, count := TrimTrailingNewlines(buf);
  }
}
