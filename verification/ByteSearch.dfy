/** Searching a Buffer for a run of octets, forwards and backwards, in single-byte mode. */
module ByteSearch {
  import opened Common

  predicate OccursAt(buffer: seq<Byte>, pattern: seq<Byte>, i: int) {
    0 <= i && i + |pattern| <= |buffer| && buffer[i..i + |pattern|] == pattern
  }

  /** `r` is the least place at or after `start` where the pattern stands, or -1 when there is none. */
  ghost predicate IsFirst(buffer: seq<Byte>, pattern: seq<Byte>, start: int, r: int) {
    && (r == -1 || (start <= r && OccursAt(buffer, pattern, r)))
    && forall k :: start <= k && OccursAt(buffer, pattern, k) ==> 0 <= r <= k
  }

  /** `r` is the greatest place at or before `end` where the pattern stands, or -1 when there is none. */
  ghost predicate IsLast(buffer: seq<Byte>, pattern: seq<Byte>, end: int, r: int) {
    && (r == -1 || (r <= end && OccursAt(buffer, pattern, r)))
    && forall k :: k <= end && OccursAt(buffer, pattern, k) ==> 0 <= k <= r
  }

  lemma OccurrenceMatches(buffer: seq<Byte>, pattern: seq<Byte>, k: int, j: int)
    requires OccursAt(buffer, pattern, k) && 0 <= j < |pattern|
    ensures buffer[k + j] == pattern[j]
  {
    assert buffer[k..k + |pattern|][j] == buffer[k + j];
  }

  lemma MismatchRulesOut(buffer: seq<Byte>, pattern: seq<Byte>, k: int, j: int)
    requires 0 <= k <= k + j < |buffer| && j < |pattern| && buffer[k + j] != pattern[j]
    ensures !OccursAt(buffer, pattern, k)
  {
    if OccursAt(buffer, pattern, k) {
      OccurrenceMatches(buffer, pattern, k, j);
    }
  }

  lemma MatchExtends(buffer: seq<Byte>, pattern: seq<Byte>, i: nat, j: nat)
    requires i + j < |buffer| && j < |pattern|
    requires buffer[i..i + j] == pattern[..j] && buffer[i + j] == pattern[j]
    ensures buffer[i..i + j + 1] == pattern[..j + 1]
  {
    assert buffer[i..i + j + 1] == buffer[i..i + j] + [buffer[i + j]];
    assert pattern[..j + 1] == pattern[..j] + [pattern[j]];
  }

  /** The forward loop: one pass that falls back to just after the candidate's start on a mismatch. */
  method ArrayIndexOf(arr: seq<Byte>, val: seq<Byte>, byteOffset: nat) returns (r: int)
    requires val != []
    ensures IsFirst(arr, val, byteOffset, r)
  {
    var foundIndex := -1;
    var i: int := byteOffset;
    while i < |arr|
      invariant byteOffset <= i
      invariant foundIndex == -1 || byteOffset <= foundIndex < i <= |arr|
      invariant foundIndex != -1 ==> i - foundIndex < |val| && arr[foundIndex..i] == val[..i - foundIndex]
      invariant forall k :: byteOffset <= k < (if foundIndex == -1 then i else foundIndex) ==> !OccursAt(arr, val, k)
      decreases |arr| - (if foundIndex == -1 then i else foundIndex), |arr| - i
    {
      var place := if foundIndex == -1 then 0 else i - foundIndex;
      if arr[i] == val[place] {
        if foundIndex == -1 { foundIndex := i; }
        MatchExtends(arr, val, foundIndex, i - foundIndex);
        if i - foundIndex + 1 == |val| { return foundIndex; }
      } else {
        MismatchRulesOut(arr, val, i - place, place);
        if foundIndex != -1 { i := foundIndex; }
        foundIndex := -1;
      }
      i := i + 1;
    }
    r := -1;
  }

  /** The backward loop: every start from the last one that fits, compared octet by octet. */
  method ArrayLastIndexOf(arr: seq<Byte>, val: seq<Byte>, byteOffset: nat) returns (r: int)
    requires val != []
    ensures IsLast(arr, val, byteOffset, r)
  {
    var i: int := if byteOffset + |val| > |arr| then |arr| - |val| else byteOffset;
    while i >= 0
      invariant -1 <= i || |val| > |arr|
      invariant i + |val| <= |arr| && i <= byteOffset
      invariant forall k :: i < k <= byteOffset ==> !OccursAt(arr, val, k)
    {
      var found := true;
      var j := 0;
      while j < |val|
        invariant 0 <= j <= |val| && found && arr[i..i + j] == val[..j]
      {
        if arr[i + j] != val[j] {
          MismatchRulesOut(arr, val, i, j);
          found := false;
          break;
        }
        MatchExtends(arr, val, i, j);
        j := j + 1;
      }
      if found {
        assert val[..j] == val;
        return i;
      }
      i := i - 1;
    }
    r := -1;
  }

  /** The offset argument: a number, something that coerces to NaN, or an encoding name in its place. */
  datatype Offset = Number(value: int) | NotANumber | EncodingName

  datatype Needle = Octets(octets: seq<Byte>) | Number(number: int)

  const MAX_LENGTH := 0x7fffffff

  method ByteIndexOf(arr: seq<Byte>, val: Byte, byteOffset: nat) returns (r: int)
    ensures IsFirst(arr, [val], byteOffset, r)
  {
    r := ArrayIndexOf(arr, [val], byteOffset);
  }

  method ByteLastIndexOf(arr: seq<Byte>, val: Byte, byteOffset: nat) returns (r: int)
    ensures IsLast(arr, [val], byteOffset, r)
  {
    r := ArrayLastIndexOf(arr, [val], byteOffset);
  }

  /** A number is searched for as one octet, modulo 256; a negative offset counts from the end, and one that is
      no number means the whole buffer. The clamping to 32 bits and to the buffer never changes which occurrence
      is found. */
  method BidirectionalIndexOf(buffer: seq<Byte>, val: Needle, byteOffset: Offset, dir: bool) returns (r: int)
    requires |buffer| <= MAX_LENGTH
    ensures val == Octets([]) ==> r == -1
    ensures val != Octets([]) ==>
              var pattern := if val.Octets? then val.octets else [val.number % 256];
              var origin := if byteOffset.EncodingName? then 0
                            else if byteOffset.NotANumber? then (if dir then 0 else |buffer| - 1)
                            else if byteOffset.value < 0 then |buffer| + byteOffset.value
                            else byteOffset.value;
              if dir then IsFirst(buffer, pattern, origin, r) else IsLast(buffer, pattern, origin, r)
  {
    if |buffer| == 0 { return -1; }
    var at: int;
    match byteOffset {
      case EncodingName => at := 0;
      case NotANumber => at := if dir then 0 else |buffer| - 1;
      case Number(n) => at := if n > 0x7fffffff then 0x7fffffff else if n < -0x80000000 then -0x80000000 else n;
    }
    if at < 0 { at := |buffer| + at; }
    if at >= |buffer| {
      if dir { return -1; }
      at := |buffer| - 1;
    } else if at < 0 {
      if !dir { return -1; }
      at := 0;
    }
    match val {
      case Octets(octets) =>
        if |octets| == 0 { return -1; }
        if dir { r := ArrayIndexOf(buffer, octets, at); } else { r := ArrayLastIndexOf(buffer, octets, at); }
      case Number(n) =>
        if dir { r := ByteIndexOf(buffer, n % 256, at); } else { r := ByteLastIndexOf(buffer, n % 256, at); }
    }
  }

  /** The two directions agree on whether the pattern occurs at all, and in which order they meet it. */
  lemma FirstAndLastAgree(buffer: seq<Byte>, pattern: seq<Byte>, first: int, last: int)
    requires pattern != []
    requires IsFirst(buffer, pattern, 0, first) && IsLast(buffer, pattern, |buffer| - 1, last)
    ensures first == -1 <==> last == -1
    ensures first <= last
    ensures first == last != -1 <==> exists k :: OccursAt(buffer, pattern, k) && Only(buffer, pattern, k)
  {
    if first == last != -1 {
      assert Only(buffer, pattern, first);
    }
  }

  ghost predicate Only(buffer: seq<Byte>, pattern: seq<Byte>, k: int) {
    forall j :: OccursAt(buffer, pattern, j) ==> j == k
  }
}
