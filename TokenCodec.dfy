// Decoding of a vector-index point id into a document-store id
// (`qdrant_id_2_mongo_id` in the search handler): split the token on '-',
// drop the first segment, and concatenate the remaining segments.
module TokenCodec {

  const Dash: char := '-'

  /** Python's `s.split('-')`: the maximal dash-free runs between dashes, in order. */
  function Split(s: string): (parts: seq<string>)
    ensures |parts| >= 1
    ensures forall k :: 0 <= k < |parts| ==> Dash !in parts[k]
    ensures JoinWithDash(parts) == s
  {
    if s == [] then [""]
    else
      var rest := Split(s[1..]);
      assert s == [s[0]] + s[1..];
      if s[0] == Dash then
        assert ([""] + rest)[1..] == rest;
        [""] + rest
      else
        var parts := [[s[0]] + rest[0]] + rest[1..];
        assert parts[1..] == rest[1..];
        assert |rest| > 1 ==> JoinWithDash(rest) == rest[0] + [Dash] + JoinWithDash(rest[1..]);
        parts
  }

  /** Python's `'-'.join(parts)`: the inverse of Split. */
  function JoinWithDash(parts: seq<string>): string
    requires |parts| >= 1
  {
    if |parts| == 1 then parts[0] else parts[0] + [Dash] + JoinWithDash(parts[1..])
  }

  /** Python's `''.join(parts)`. */
  function Concat(parts: seq<string>): string {
    if parts == [] then "" else parts[0] + Concat(parts[1..])
  }

  /** `s` with every dash removed: the independent reading of the decoder. */
  function RemoveDashes(s: string): (r: string)
    ensures Dash !in r
  {
    if s == [] then ""
    else (if s[0] == Dash then "" else [s[0]]) + RemoveDashes(s[1..])
  }

  /** `qdrant_id_2_mongo_id`: `''.join(token.split('-')[1:])`. */
  function DecodeToken(token: string): string {
    Concat(Split(token)[1..])
  }

  lemma {:induction false} RemoveDashesOfDashFree(s: string)
    requires Dash !in s
    ensures RemoveDashes(s) == s
  {
    if s != [] {
      RemoveDashesOfDashFree(s[1..]);
    }
  }

  /** Concatenating the segments of a split is the same as deleting the dashes. */
  lemma {:induction false} ConcatSplit(s: string)
    ensures Concat(Split(s)) == RemoveDashes(s)
  {
    if s != [] {
      var rest := Split(s[1..]);
      ConcatSplit(s[1..]);
      if s[0] != Dash {
        assert Split(s) == [[s[0]] + rest[0]] + rest[1..];
        assert Concat(rest) == rest[0] + Concat(rest[1..]);
      }
    }
  }

  /** The segments after the first one are those of the text after the first dash. */
  lemma {:induction false} SplitAfterFirstDash(prefix: string, rest: string)
    requires Dash !in prefix
    ensures Split(prefix + [Dash] + rest)[1..] == Split(rest)
  {
    if prefix == [] {
      assert [Dash] + rest == [Dash] + rest;
      assert ([Dash] + rest)[1..] == rest;
    } else {
      assert (prefix + [Dash] + rest)[1..] == prefix[1..] + [Dash] + rest;
      SplitAfterFirstDash(prefix[1..], rest);
    }
  }

  /**
   * The decoded id: for a token `prefix-rest` with a dash-free first segment,
   * the text after the first dash with all dashes removed.
   */
  lemma DecodeTokenDropsFirstSegment(prefix: string, rest: string)
    requires Dash !in prefix
    ensures DecodeToken(prefix + [Dash] + rest) == RemoveDashes(rest)
  {
    SplitAfterFirstDash(prefix, rest);
    ConcatSplit(rest);
  }

  /** A token without a dash is a single segment, so it decodes to the empty id. */
  lemma {:induction false} DecodeTokenWithoutDash(token: string)
    requires Dash !in token
    ensures DecodeToken(token) == ""
  {
    if token != [] {
      DecodeTokenWithoutDash(token[1..]);
      assert token == [token[0]] + token[1..];
    }
  }

  /** The decoded id never contains a dash. */
  lemma DecodeTokenDashFree(token: string)
    ensures Dash !in DecodeToken(token)
  {
    if Dash in token {
      var i :| 0 <= i < |token| && token[i] == Dash;
      var k := FirstDash(token, i);
      assert token == token[..k] + [Dash] + token[k + 1..];
      DecodeTokenDropsFirstSegment(token[..k], token[k + 1..]);
    } else {
      DecodeTokenWithoutDash(token);
    }
  }

  /** The index of the first dash, given that there is one at or before `i`. */
  function FirstDash(s: string, i: nat): (k: nat)
    requires i < |s| && s[i] == Dash
    ensures k <= i && s[k] == Dash && Dash !in s[..k]
  {
    if Dash in s[..i] then
      var j :| 0 <= j < i && s[j] == Dash;
      FirstDash(s, j)
    else i
  }

  predicate IsHexDigit(c: char) {
    ('0' <= c <= '9') || ('a' <= c <= 'f') || ('A' <= c <= 'F')
  }

  predicate IsHexString(s: string) {
    forall i :: 0 <= i < |s| ==> IsHexDigit(s[i])
  }

  /** The string form `bson.ObjectId(s)` accepts: 24 hexadecimal characters. */
  predicate IsObjectIdHex(s: string) {
    |s| == 24 && IsHexString(s)
  }

  /** A point id of UUID shape: hex groups of 8, 4, 4, 4 and 12 characters joined by dashes. */
  predicate IsUuidToken(t: string) {
    |t| == 36 && t[8] == Dash && t[13] == Dash && t[18] == Dash && t[23] == Dash
    && IsHexString(t[..8]) && IsHexString(t[9..13]) && IsHexString(t[14..18])
    && IsHexString(t[19..23]) && IsHexString(t[24..])
  }

  /** A dash-free group followed by a dash keeps the group and loses the dash. */
  lemma {:induction false} RemoveDashesGroup(group: string, rest: string)
    requires Dash !in group
    ensures RemoveDashes(group + [Dash] + rest) == group + RemoveDashes(rest)
  {
    var t := group + [Dash] + rest;
    if group == [] {
      assert t[0] == Dash && t[1..] == rest;
    } else {
      assert t[0] == group[0] && t[1..] == group[1..] + [Dash] + rest;
      RemoveDashesGroup(group[1..], rest);
      assert group == [group[0]] + group[1..];
    }
  }

  lemma HexConcat(a: string, b: string)
    requires IsHexString(a) && IsHexString(b)
    ensures IsHexString(a + b)
  {
    forall i | 0 <= i < |a + b| ensures IsHexDigit((a + b)[i]) {
      if i >= |a| {
        assert (a + b)[i] == b[i - |a|];
      }
    }
  }

  /** A UUID-shaped token decodes to the 24 hex characters after its first group. */
  lemma DecodeUuidToken(t: string)
    requires IsUuidToken(t)
    ensures DecodeToken(t) == t[9..13] + t[14..18] + t[19..23] + t[24..]
    ensures IsObjectIdHex(DecodeToken(t))
  {
    var a, b, c, d := t[9..13], t[14..18], t[19..23], t[24..];
    var rest := t[9..];
    assert t == t[..8] + [Dash] + rest;
    assert rest == a + [Dash] + (b + [Dash] + (c + [Dash] + d));
    DecodeTokenDropsFirstSegment(t[..8], rest);
    RemoveDashesGroup(a, b + [Dash] + (c + [Dash] + d));
    RemoveDashesGroup(b, c + [Dash] + d);
    RemoveDashesGroup(c, d);
    RemoveDashesOfDashFree(d);
    assert a + (b + (c + d)) == a + b + c + d;
    HexConcat(c, d);
    HexConcat(b, c + d);
    HexConcat(a, b + (c + d));
  }

  /**
   * The layout the decoder assumes: a 24-hex document id written into the last
   * four groups of a UUID behind an 8-hex prefix.
   */
  function EncodeToken(prefix: string, id: string): (t: string)
    requires |prefix| == 8 && IsHexString(prefix) && IsObjectIdHex(id)
    ensures IsUuidToken(t)
    ensures t[..8] == prefix && t[9..13] == id[..4] && t[14..18] == id[4..8]
    ensures t[19..23] == id[8..12] && t[24..] == id[12..]
  {
    var t := prefix + [Dash] + id[..4] + [Dash] + id[4..8] + [Dash] + id[8..12] + [Dash] + id[12..];
    assert t[..8] == prefix && t[9..13] == id[..4] && t[14..18] == id[4..8];
    assert t[19..23] == id[8..12] && t[24..] == id[12..];
    t
  }

  /** Decoding inverts encoding. */
  lemma DecodeEncodeToken(prefix: string, id: string)
    requires |prefix| == 8 && IsHexString(prefix) && IsObjectIdHex(id)
    ensures DecodeToken(EncodeToken(prefix, id)) == id
  {
    var t := EncodeToken(prefix, id);
    DecodeUuidToken(t);
    assert id == id[..4] + id[4..8] + id[8..12] + id[12..];
  }
}
