/** Searches in a piece of a byte string, with size_t positions and the npos sentinel. */
module StringPieces {

  newtype byte = x: int | 0 <= x <= 0xFF

  newtype size_t = x: int | 0 <= x <= 0xFFFF_FFFF_FFFF_FFFF

  /** size_t(-1) */
  const NPOS: size_t := 0xFFFF_FFFF_FFFF_FFFF

  /** No object is larger than this. */
  const PTRDIFF_MAX := 0x7FFF_FFFF_FFFF_FFFF

  type Bytes = s: seq<byte> | |s| <= PTRDIFF_MAX witness []

  function Min(a: size_t, b: size_t): size_t { if a <= b then a else b }

  // ---- what the searches are for ----

  ghost predicate MatchAt(t: Bytes, s: Bytes, i: int) {
    0 <= i && i + |s| <= |t| && t[i..i + |s|] == s
  }

  /** r is the least match position at or after pos, or NPOS if there is none. */
  ghost predicate IsFirstMatch(t: Bytes, s: Bytes, pos: size_t, r: size_t) {
    if r == NPOS then forall i | pos as int <= i :: !MatchAt(t, s, i)
    else pos <= r && MatchAt(t, s, r as int) && forall i | pos as int <= i < r as int :: !MatchAt(t, s, i)
  }

  /** r is the greatest match position at or before pos, or NPOS if there is none. */
  ghost predicate IsLastMatch(t: Bytes, s: Bytes, pos: size_t, r: size_t) {
    if r == NPOS then forall i | i <= pos as int :: !MatchAt(t, s, i)
    else r <= pos && MatchAt(t, s, r as int) && forall i | r as int < i <= pos as int :: !MatchAt(t, s, i)
  }

  /** The byte at index i is in the set s (member) or is not (not member). */
  ghost predicate HitAt(t: Bytes, s: Bytes, member: bool, i: int) {
    0 <= i < |t| && (t[i] in s) == member
  }

  ghost predicate IsFirstHit(t: Bytes, s: Bytes, member: bool, pos: size_t, r: size_t) {
    if r == NPOS then forall i | pos as int <= i :: !HitAt(t, s, member, i)
    else pos <= r && HitAt(t, s, member, r as int)
         && forall i | pos as int <= i < r as int :: !HitAt(t, s, member, i)
  }

  ghost predicate IsLastHit(t: Bytes, s: Bytes, member: bool, pos: size_t, r: size_t) {
    if r == NPOS then forall i | i <= pos as int :: !HitAt(t, s, member, i)
    else r <= pos && HitAt(t, s, member, r as int)
         && forall i | r as int < i <= pos as int :: !HitAt(t, s, member, i)
  }

  /** table[b] says whether the byte b is wanted. */
  method BuildLookupTable(wanted: Bytes, table: array<bool>)
    requires table.Length == 256 && forall b | 0 <= b < 256 :: !table[b]
    modifies table
    ensures forall b: byte :: table[b] <==> b in wanted
  {
    for i := 0 to |wanted|
      invariant forall b: byte :: table[b] <==> b in wanted[..i]
    {
      assert wanted[..i + 1] == wanted[..i] + [wanted[i]];
      table[wanted[i]] := true;
    }
    assert wanted[..|wanted|] == wanted;
  }

  datatype StringPiece = StringPiece(bytes: Bytes) {
    function Length(): size_t { |bytes| as size_t }

    predicate StartsWith(x: Bytes) { |bytes| >= |x| && bytes[..|x|] == x }

    predicate EndsWith(x: Bytes) { |bytes| >= |x| && bytes[|bytes| - |x|..] == x }

    method Find(s: Bytes, pos: size_t) returns (r: size_t)
      ensures IsFirstMatch(bytes, s, pos, r)
    {
      if pos > Length() {
        return NPOS;
      }
      var xpos := Search(s, pos);
      return if xpos + |s| as size_t <= Length() then xpos else NPOS;
    }

    /** The first position of s from pos on, or the length: the result of std::search. */
    method Search(s: Bytes, pos: size_t) returns (i: size_t)
      requires pos <= Length()
      ensures pos <= i <= Length() && forall k | pos as int <= k < i as int :: !MatchAt(bytes, s, k)
      ensures MatchAt(bytes, s, i as int) || (i == Length() && s != [])
    {
      i := pos;
      while i < Length()
        invariant pos <= i <= Length()
        invariant forall k | pos as int <= k < i as int :: !MatchAt(bytes, s, k)
      {
        if i + |s| as size_t <= Length() && bytes[i..i as int + |s|] == s {
          return;
        }
        i := i + 1;
      }
    }

    method FindByte(c: byte, pos: size_t) returns (r: size_t)
      ensures IsFirstHit(bytes, [c], true, pos, r)
    {
      if pos >= Length() {
        return NPOS;
      }
      r := pos;
      while r < Length()
        invariant pos <= r <= Length()
        invariant forall i | pos as int <= i < r as int :: !HitAt(bytes, [c], true, i)
      {
        if bytes[r] == c {
          return;
        }
        r := r + 1;
      }
      return NPOS;
    }

    method Rfind(s: Bytes, pos: size_t) returns (r: size_t)
      ensures IsLastMatch(bytes, s, pos, r)
    {
      if |bytes| < |s| {
        return NPOS;
      }
      if s == [] {
        return Min(Length(), pos);
      }
      var last := Min(Length() - |s| as size_t, pos) + |s| as size_t;
      var result := FindEnd(s, last);
      return if result != last then result else NPOS;
    }

    /** The last position of s that ends at or before last, or last: the result of std::find_end. */
    method FindEnd(s: Bytes, last: size_t) returns (i: size_t)
      requires s != [] && |s| <= last as int <= |bytes|
      ensures i <= last
      ensures i != last ==> i as int + |s| <= last as int && MatchAt(bytes, s, i as int)
      ensures forall k | i as int < k && k + |s| <= last as int :: !MatchAt(bytes, s, k)
      ensures i == last ==> forall k | k + |s| <= last as int :: !MatchAt(bytes, s, k)
    {
      i := last - |s| as size_t;
      while true
        invariant i as int + |s| <= last as int
        invariant forall k | i as int < k && k + |s| <= last as int :: !MatchAt(bytes, s, k)
        decreases i
      {
        if bytes[i..i as int + |s|] == s {
          return;
        }
        if i == 0 {
          break;
        }
        i := i - 1;
      }
      return last;
    }

    method RfindByte(c: byte, pos: size_t) returns (r: size_t)
      ensures IsLastHit(bytes, [c], true, pos, r)
    {
      if Length() == 0 {
        return NPOS;
      }
      var i := Min(pos, Length() - 1);
      while true
        invariant i <= pos && i < Length()
        invariant forall k | i as int < k <= pos as int :: !HitAt(bytes, [c], true, k)
        decreases i
      {
        if bytes[i] == c {
          return i;
        }
        if i == 0 {
          break;
        }
        i := i - 1;
      }
      return NPOS;
    }

    method FindFirstOf(s: Bytes, pos: size_t) returns (r: size_t)
      ensures IsFirstHit(bytes, s, true, pos, r)
    {
      if Length() == 0 || s == [] {
        return NPOS;
      }
      if |s| == 1 {
        assert s == [s[0]];
        r := FindByte(s[0], pos);
        return;
      }
      var lookup := new bool[256](_ => false);
      BuildLookupTable(s, lookup);
      var i := pos;
      while i < Length()
        invariant pos <= i
        invariant forall k | pos as int <= k < i as int :: !HitAt(bytes, s, true, k)
      {
        if lookup[bytes[i]] {
          return i;
        }
        i := i + 1;
      }
      return NPOS;
    }

    /** With an empty set and a non-empty piece the answer is 0 whatever pos is: it is the
        first hit only for pos == 0. */
    method FindFirstNotOf(s: Bytes, pos: size_t) returns (r: size_t)
      ensures IsFirstHit(bytes, s, false, pos, r) <==> s != [] || bytes == [] || pos == 0
      ensures s == [] && bytes != [] ==> r == 0
    {
      if Length() == 0 {
        return NPOS;
      }
      if s == [] {
        assert HitAt(bytes, s, false, 0);
        return 0;
      }
      if |s| == 1 {
        assert s == [s[0]];
        r := FindFirstNotOfByte(s[0], pos);
        return;
      }
      var lookup := new bool[256](_ => false);
      BuildLookupTable(s, lookup);
      var i := pos;
      while i < Length()
        invariant pos <= i
        invariant forall k | pos as int <= k < i as int :: !HitAt(bytes, s, false, k)
      {
        if !lookup[bytes[i]] {
          return i;
        }
        i := i + 1;
      }
      return NPOS;
    }

    method FindFirstNotOfByte(c: byte, pos: size_t) returns (r: size_t)
      ensures IsFirstHit(bytes, [c], false, pos, r)
    {
      if Length() == 0 {
        return NPOS;
      }
      r := pos;
      while r < Length()
        invariant pos <= r
        invariant forall k | pos as int <= k < r as int :: !HitAt(bytes, [c], false, k)
      {
        if bytes[r] != c {
          return;
        }
        r := r + 1;
      }
      return NPOS;
    }

    method FindLastOf(s: Bytes, pos: size_t) returns (r: size_t)
      ensures IsLastHit(bytes, s, true, pos, r)
    {
      if Length() == 0 || s == [] {
        return NPOS;
      }
      if |s| == 1 {
        assert s == [s[0]];
        r := RfindByte(s[0], pos);
        return;
      }
      var lookup := new bool[256](_ => false);
      BuildLookupTable(s, lookup);
      var i := Min(pos, Length() - 1);
      while true
        invariant i <= pos && i < Length()
        invariant forall k | i as int < k <= pos as int :: !HitAt(bytes, s, true, k)
        decreases i
      {
        if lookup[bytes[i]] {
          return i;
        }
        if i == 0 {
          break;
        }
        i := i - 1;
      }
      return NPOS;
    }

    method FindLastNotOf(s: Bytes, pos: size_t) returns (r: size_t)
      ensures IsLastHit(bytes, s, false, pos, r)
    {
      if Length() == 0 {
        return NPOS;
      }
      var i := Min(pos, Length() - 1);
      if s == [] {
        return i;
      }
      if |s| == 1 {
        assert s == [s[0]];
        r := FindLastNotOfByte(s[0], pos);
        return;
      }
      var lookup := new bool[256](_ => false);
      BuildLookupTable(s, lookup);
      while true
        invariant i <= pos && i < Length()
        invariant forall k | i as int < k <= pos as int :: !HitAt(bytes, s, false, k)
        decreases i
      {
        if !lookup[bytes[i]] {
          return i;
        }
        if i == 0 {
          break;
        }
        i := i - 1;
      }
      return NPOS;
    }

    method FindLastNotOfByte(c: byte, pos: size_t) returns (r: size_t)
      ensures IsLastHit(bytes, [c], false, pos, r)
    {
      if Length() == 0 {
        return NPOS;
      }
      var i := Min(pos, Length() - 1);
      while true
        invariant i <= pos && i < Length()
        invariant forall k | i as int < k <= pos as int :: !HitAt(bytes, [c], false, k)
        decreases i
      {
        if bytes[i] != c {
          return i;
        }
        if i == 0 {
          break;
        }
        i := i - 1;
      }
      return NPOS;
    }
  }

  /** find, rfind and starts_with agree on what a prefix is. */
  lemma StartsWithIffFound(piece: StringPiece, x: Bytes, first: size_t, last: size_t)
    requires IsFirstMatch(piece.bytes, x, 0, first) && IsLastMatch(piece.bytes, x, 0, last)
    ensures piece.StartsWith(x) <==> first == 0
    ensures piece.StartsWith(x) <==> last == 0
  {
    assert piece.StartsWith(x) <==> MatchAt(piece.bytes, x, 0);
  }

  /** rfind from the very end finds exactly the suffixes at their place. */
  lemma EndsWithIffFound(piece: StringPiece, x: Bytes, last: size_t)
    requires IsLastMatch(piece.bytes, x, NPOS, last)
    ensures piece.EndsWith(x) <==> last != NPOS && last as int == |piece.bytes| - |x|
  {
    var at := |piece.bytes| - |x|;
    assert piece.EndsWith(x) <==> MatchAt(piece.bytes, x, at);
    assert forall i | i > at :: !MatchAt(piece.bytes, x, i);
  }
}
