/** Extraction of the JSON payload from a Socket.IO event string: the text
    from the first `[` through the character after the first `}`, or the
    empty string when the event says `null` or lacks either bracket. */
module SocketIo {
  import opened Utils

  /** `pat` occurs in `s` at index `i`. */
  predicate OccursAt(s: string, pat: string, i: int)
  {
    0 <= i && i + |pat| <= |s| && s[i..i + |pat|] == pat
  }

  /** The first index, not before `from`, at which `pat` occurs in `s`. */
  function FindFrom(s: string, pat: string, from: nat): (r: Option<nat>)
    requires from <= |s|
    ensures r.None? <==> forall i :: from <= i <= |s| ==> !OccursAt(s, pat, i)
    ensures r.Some? ==> from <= r.value && OccursAt(s, pat, r.value)
    ensures r.Some? ==> forall i :: from <= i < r.value ==> !OccursAt(s, pat, i)
    decreases |s| - from
  {
    if OccursAt(s, pat, from) then Some(from)
    else if from == |s| then None
    else FindFrom(s, pat, from + 1)
  }

  /** `std::string::find`: the first occurrence of `pat` in `s`. */
  function Find(s: string, pat: string): Option<nat>
  {
    FindFrom(s, pat, 0)
  }

  /** `std::string::find_first_of` with one character: its first index in `s`. */
  function FindChar(s: string, c: char): (r: Option<nat>)
    ensures r.None? <==> forall i :: 0 <= i < |s| ==> s[i] != c
    ensures r.Some? ==> r.value < |s| && s[r.value] == c
    ensures r.Some? ==> forall i :: 0 <= i < r.value ==> s[i] != c
  {
    if |s| == 0 then None
    else if s[0] == c then Some(0)
    else match FindChar(s[1..], c)
      case None => None
      case Some(i) => Some(i + 1)
  }

  /** `std::string::substr`: at most `count` characters from `pos`. */
  function Substr(s: string, pos: nat, count: nat): (r: string)
    requires pos <= |s|
    ensures |r| <= count && r <= s[pos..]
    ensures pos + count <= |s| ==> |r| == count
    ensures pos + count > |s| ==> r == s[pos..]
  {
    if pos + count <= |s| then s[pos..pos + count] else s[pos..]
  }

  /** The payload of a Socket.IO event. The length passed to `substr` is
      `b2 - b1 + 2` in unsigned 64-bit arithmetic, so it wraps to a huge count,
      and the payload runs to the end of the event, when the first `}` lies
      more than two characters before the first `[`. */
  function HasData(s: string): (r: string)
    requires |s| < Word64 - 1
    ensures Find(s, "null").Some? ==> r == []
    ensures FindChar(s, '[').None? || FindChar(s, '}').None? ==> r == []
    ensures r != [] ==> r[0] == '[' && r <= s[FindChar(s, '[').value..]
    ensures Find(s, "null").None? && FindChar(s, '[').Some? && FindChar(s, '}').Some?
            && FindChar(s, '[').value <= FindChar(s, '}').value + 2 ==>
      var b1, b2 := FindChar(s, '[').value, FindChar(s, '}').value;
      r == s[b1..MinInt(b2 + 2, |s|)]
    ensures Find(s, "null").None? && FindChar(s, '[').Some? && FindChar(s, '}').Some?
            && FindChar(s, '}').value + 2 < FindChar(s, '[').value ==>
      r == s[FindChar(s, '[').value..]
  {
    var b1, b2 := FindChar(s, '['), FindChar(s, '}');
    if Find(s, "null").Some? then []
    else if b1.Some? && b2.Some? then
      var count := AsUnsigned64(b2.value - b1.value + 2);
      assert b1.value <= b2.value + 2 ==> count == b2.value - b1.value + 2;
      assert b2.value + 2 < b1.value ==> b1.value + count > |s|;
      Substr(s, b1.value, count)
    else []
  }

  /** A telemetry event `prefix [body}] suffix` yields exactly `[body}]` when
      neither the prefix nor the body holds a bracket of the kinds searched for
      and the event nowhere says `null`. */
  lemma HasDataExtracts(prefix: string, body: string, suffix: string)
    requires forall i :: 0 <= i < |prefix| ==> prefix[i] != '[' && prefix[i] != '}'
    requires forall i :: 0 <= i < |body| ==> body[i] != '}'
    requires |prefix + "[" + body + "}]" + suffix| < Word64 - 1
    requires Find(prefix + "[" + body + "}]" + suffix, "null").None?
    ensures HasData(prefix + "[" + body + "}]" + suffix) == "[" + body + "}]"
  {
    var s := prefix + "[" + body + "}]" + suffix;
    var b1, b2 := |prefix|, |prefix| + 1 + |body|;
    assert s[b1] == '[';
    assert s[b2] == '}';
    assert FindChar(s, '[').value == b1 by {
      assert forall i :: 0 <= i < b1 ==> s[i] == prefix[i];
    }
    assert FindChar(s, '}').value == b2 by {
      assert forall i :: 0 <= i < b1 ==> s[i] == prefix[i];
      assert forall i :: b1 < i < b2 ==> s[i] == body[i - b1 - 1];
    }
    assert s[b1..b2 + 2] == "[" + body + "}]";
  }
}
