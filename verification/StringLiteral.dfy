/** String literals on their way through the lexer: masking of two-byte characters,
    unescaping in place, and unmasking. */
module StringLiteral {
  import opened DataOrder

  const BACKSLASH: byte := 0x5C
  const MASK: byte := 0x7F
  const PERCENT: byte := 0x25
  const UNDERSCORE: byte := 0x5F

  predicate IsLead(b: byte) { b >= 0x80 }

  /** What a backslash followed by `b` stands for, for the characters that have an escape. */
  const ESCAPES: map<byte, byte> :=
    map[0x5C := 0x5C, 0x22 := 0x22, 0x27 := 0x27, 0x72 := 0x0D, 0x74 := 0x09, 0x6E := 0x0A, 0x62 := 0x08, 0x5A := 0x1A]

  // ---- characters ----------------------------------------------------------

  /** A byte from 0x80 on and the byte after it make one character. */
  datatype Char = Single(b: byte) | Double(lead: byte, trail: byte)

  ghost function Chars(s: Bytes): seq<Char> {
    if s == [] then []
    else if IsLead(s[0]) && |s| > 1 then [Double(s[0], s[1])] + Chars(s[2..])
    else [Single(s[0])] + Chars(s[1..])
  }

  ghost function BytesOf(cs: seq<Char>): Bytes {
    if cs == [] then []
    else (match cs[0] case Single(b) => [b] case Double(l, t) => [l, t]) + BytesOf(cs[1..])
  }

  /** Unescaping character by character. The wildcards of LIKE keep their backslash, an
      unknown escape loses it, and so does the end of the literal. */
  ghost function Unescape(cs: seq<Char>): seq<Char> {
    if cs == [] then []
    else if cs[0] != Single(BACKSLASH) then [cs[0]] + Unescape(cs[1..])
    else if |cs| == 1 then []
    else if cs[1].Single? && cs[1].b in ESCAPES then [Single(ESCAPES[cs[1].b])] + Unescape(cs[2..])
    else if cs[1].Single? && (cs[1].b == PERCENT || cs[1].b == UNDERSCORE) then cs[..2] + Unescape(cs[2..])
    else [cs[1]] + Unescape(cs[2..])
  }

  ghost predicate HasTrail(cs: seq<Char>, x: byte) {
    exists i :: 0 <= i < |cs| && cs[i].Double? && cs[i].trail == x
  }

  /** Characters as a text can have them: a byte from 0x80 on stands alone only at the end. */
  ghost predicate Proper(cs: seq<Char>) {
    forall i :: 0 <= i < |cs| ==>
      if cs[i].Double? then IsLead(cs[i].lead) else IsLead(cs[i].b) ==> i == |cs| - 1
  }

  // ---- bytes ---------------------------------------------------------------

  /** Every second byte of a two-byte character that is `a` becomes `b`. */
  ghost function Swap(s: Bytes, a: byte, b: byte): (t: Bytes)
    ensures |t| == |s|
  {
    if s == [] then []
    else if IsLead(s[0]) && |s| > 1 then [s[0], if s[1] == a then b else s[1]] + Swap(s[2..], a, b)
    else [s[0]] + Swap(s[1..], a, b)
  }

  /** Unescaping byte by byte. */
  ghost function Strip(s: Bytes): Bytes {
    if s == [] then []
    else if s[0] != BACKSLASH then [s[0]] + Strip(s[1..])
    else if |s| == 1 then []
    else if s[1] in ESCAPES then [ESCAPES[s[1]]] + Strip(s[2..])
    else if s[1] == PERCENT || s[1] == UNDERSCORE then [BACKSLASH, s[1]] + Strip(s[2..])
    else Strip(s[1..])
  }

  // ---- the text in place ---------------------------------------------------

  class Text {
    var value: array<byte>
    var length: nat

    ghost predicate Valid()
      reads this
    {
      length <= value.Length
    }

    function Contents(): Bytes
      reads this, value
      requires Valid()
    {
      value[..length]
    }

    /** Unmasks the second bytes. */
    method RestoreTrails()
      requires Valid()
      modifies value
      ensures Contents() == Swap(old(Contents()), MASK, BACKSLASH)
      ensures forall k :: length <= k < value.Length ==> value[k] == old(value[k])
    {
      hide Swap;
      ghost var s, done := value[..length], [];
      var i := 0;
      assert s[0..] == s;
      while i < length
        invariant 0 <= i <= length && |done| == i && done + Swap(s[i..], MASK, BACKSLASH) == Swap(s, MASK, BACKSLASH)
        invariant forall k :: 0 <= k < i ==> value[k] == done[k]
        invariant forall k :: i <= k < length ==> value[k] == s[k]
        invariant forall k :: length <= k < value.Length ==> value[k] == old(value[k])
      {
        SwapAt(s, i, MASK, BACKSLASH, done);
        if IsLead(value[i]) {
          done := done + [s[i]];
          i := i + 1;
          if i >= length {
            assert value[..length] == done;
            return;
          }
          if value[i] == MASK { value[i] := BACKSLASH; }
        }
        done := done + [value[i]];
        i := i + 1;
      }
      SwapAtEnd(s, MASK, BACKSLASH, done);
      assert value[..length] == done;
    }

    /** Unescapes with a slow writer behind a fast reader, and terminates the text. Past
        the old end nothing changes. */
    method StripSlashes()
      requires Valid() && length < value.Length
      modifies this`length, value
      ensures Valid() && length <= old(length) && value == old(value)
      ensures Contents() == Strip(old(Contents())) && value[length] == 0
      ensures forall k :: old(length) < k < value.Length ==> value[k] == old(value[k])
    {
      hide Strip, Pending;
      ghost var s, done := value[..length], [];
      var slow, fast, hasSlash := 0, 0, false;
      StripAtStart(s);
      while fast < length
        invariant length == |s| && 0 <= slow <= fast <= length && (hasSlash ==> slow < fast) && |done| == slow
        invariant forall k :: 0 <= k < slow ==> value[k] == done[k]
        invariant forall k :: fast <= k < length ==> value[k] == s[k]
        invariant forall k :: length <= k < value.Length ==> value[k] == old(value[k])
        invariant done + Strip(Pending(s, fast, hasSlash)) == Strip(s)
        decreases length - fast, hasSlash
      {
        StripAt(s, fast, hasSlash, done);
        if hasSlash {
          if value[fast] in ESCAPES {
            value[slow] := ESCAPES[value[fast]];
            done := done + [value[slow]];
            slow, fast := slow + 1, fast + 1;
          } else if value[fast] == PERCENT || value[fast] == UNDERSCORE {
            value[slow] := BACKSLASH;
            slow := slow + 1;
            value[slow] := value[fast];
            done := done + [BACKSLASH, value[slow]];
            slow, fast := slow + 1, fast + 1;
          }
          hasSlash := false;
        } else {
          if value[fast] == BACKSLASH {
            hasSlash := true;
            fast := fast + 1;
          } else {
            value[slow] := value[fast];
            done := done + [value[slow]];
            slow, fast := slow + 1, fast + 1;
          }
        }
      }
      StripAtEnd(s, hasSlash, done);
      assert value[..slow] == done;
      value[slow] := 0;
      length := slow;
    }
  }

  /** One step of the loops that swap second bytes: `done` is the output so far. */
  lemma SwapAt(s: Bytes, i: nat, a: byte, b: byte, done: Bytes)
    requires i < |s|
    ensures if IsLead(s[i]) && i + 1 < |s|
            then done + Swap(s[i..], a, b) == done + [s[i]] + [if s[i + 1] == a then b else s[i + 1]] + Swap(s[i + 2..], a, b)
            else done + Swap(s[i..], a, b) == done + [s[i]] + Swap(s[i + 1..], a, b)
    ensures i + 1 == |s| ==> done + Swap(s[i..], a, b) == done + [s[i]]
  {
  }

  lemma SwapAtEnd(s: Bytes, a: byte, b: byte, done: Bytes)
    ensures done + Swap(s[|s|..], a, b) == done
  {
  }

  /** What is still to be unescaped: the unread text, behind a backslash when one was read. */
  ghost function Pending(s: Bytes, i: nat, hasSlash: bool): Bytes
    requires i <= |s|
  {
    if hasSlash then [BACKSLASH] + s[i..] else s[i..]
  }

  /** One step of the unescaping loop. */
  lemma StripAt(s: Bytes, i: nat, hasSlash: bool, done: Bytes)
    requires i < |s|
    ensures done + Strip(Pending(s, i, hasSlash)) ==
            if hasSlash then
              if s[i] in ESCAPES then done + [ESCAPES[s[i]]] + Strip(Pending(s, i + 1, false))
              else if s[i] == PERCENT || s[i] == UNDERSCORE then done + [BACKSLASH, s[i]] + Strip(Pending(s, i + 1, false))
              else done + Strip(Pending(s, i, false))
            else if s[i] == BACKSLASH then done + Strip(Pending(s, i + 1, true))
            else done + [s[i]] + Strip(Pending(s, i + 1, false))
  {
    var todo := Pending(s, i, hasSlash);
    if hasSlash {
      assert todo[1..] == s[i..] && todo[2..] == s[i + 1..];
    } else {
      assert todo[1..] == s[i + 1..];
      if s[i] == BACKSLASH { assert Pending(s, i + 1, true) == todo; }
    }
  }

  lemma StripAtStart(s: Bytes)
    ensures [] + Strip(Pending(s, 0, false)) == Strip(s)
  {
  }

  lemma StripAtEnd(s: Bytes, hasSlash: bool, done: Bytes)
    ensures done + Strip(Pending(s, |s|, hasSlash)) == done
  {
  }

  class SqlParser {
    var isGbk: bool
    var has5c: bool

    /** Masks the second bytes that look like a backslash, and remembers having done so. */
    method MaskTrails(sql: array<byte>)
      modifies this`has5c, sql
      ensures sql[..] == Swap(old(sql[..]), BACKSLASH, MASK)
      ensures has5c == (old(has5c) || HasTrail(Chars(old(sql[..])), BACKSLASH))
    {
      hide Swap, HasTrail, Chars;
      ghost var s, done, seen := sql[..], [], has5c;
      var i := 0;
      assert s[0..] == s;
      while i < sql.Length
        invariant 0 <= i <= sql.Length && |done| == i && done + Swap(s[i..], BACKSLASH, MASK) == Swap(s, BACKSLASH, MASK)
        invariant forall k :: 0 <= k < i ==> sql[k] == done[k]
        invariant forall k :: i <= k < sql.Length ==> sql[k] == s[k]
        invariant (has5c || HasTrail(Chars(s[i..]), BACKSLASH)) == (seen || HasTrail(Chars(s), BACKSLASH))
      {
        SwapAt(s, i, BACKSLASH, MASK, done);
        TrailAt(s, i);
        if IsLead(sql[i]) {
          done := done + [s[i]];
          i := i + 1;
          if i >= sql.Length {
            assert sql[..] == done;
            return;
          }
          if sql[i] == BACKSLASH {
            sql[i] := MASK;
            has5c := true;
          }
        }
        done := done + [sql[i]];
        i := i + 1;
      }
      SwapAtEnd(s, BACKSLASH, MASK, done);
      NoTrailAtEnd(s);
      assert sql[..] == done;
    }

    /** The lexer's treatment of a literal. */
    method FinishLiteral(text: Text)
      requires text.Valid() && text.length < text.value.Length
      modifies text`length, text.value
      ensures text.Valid()
      ensures text.Contents() == var stripped := Strip(old(text.Contents()));
                                 if isGbk && has5c then Swap(stripped, MASK, BACKSLASH) else stripped
    {
      text.StripSlashes();
      if isGbk && has5c {
        text.RestoreTrails();
      }
    }
  }

  lemma TrailAt(s: Bytes, i: nat)
    requires i < |s|
    ensures HasTrail(Chars(s[i..]), BACKSLASH) ==
            if IsLead(s[i]) then i + 1 < |s| && (s[i + 1] == BACKSLASH || HasTrail(Chars(s[i + 2..]), BACKSLASH))
            else HasTrail(Chars(s[i + 1..]), BACKSLASH)
  {
    hide HasTrail;
    FirstTrail(s[i..]);
    assert s[i..][1..] == s[i + 1..];
    if i + 1 < |s| { assert s[i..][2..] == s[i + 2..]; }
  }

  lemma NoTrailAtEnd(s: Bytes)
    ensures !HasTrail(Chars(s[|s|..]), BACKSLASH)
  {
  }

  lemma FirstTrail(s: Bytes)
    requires s != []
    ensures HasTrail(Chars(s), BACKSLASH) ==
            if IsLead(s[0]) then |s| > 1 && (s[1] == BACKSLASH || HasTrail(Chars(s[2..]), BACKSLASH))
            else HasTrail(Chars(s[1..]), BACKSLASH)
  {
    hide HasTrail;
    var cs := Chars(s);
    var rest := if IsLead(s[0]) && |s| > 1 then Chars(s[2..]) else Chars(s[1..]);
    assert cs == [cs[0]] + rest;
    EmptyProper(BACKSLASH);
    if |s| == 1 { assert s[1..] == []; }
    HasTrailCons(cs[0], rest, BACKSLASH);
  }

  lemma HasTrailCons(c: Char, cs: seq<Char>, x: byte)
    ensures HasTrail([c] + cs, x) == ((c.Double? && c.trail == x) || HasTrail(cs, x))
  {
    var all := [c] + cs;
    if HasTrail(cs, x) {
      var i :| 0 <= i < |cs| && cs[i].Double? && cs[i].trail == x;
      assert all[i + 1] == cs[i];
    }
    if c.Double? && c.trail == x { assert all[0] == c; }
    if HasTrail(all, x) {
      var i :| 0 <= i < |all| && all[i].Double? && all[i].trail == x;
      assert i > 0 ==> all[i] == cs[i - 1];
    }
  }

  // ---- bytes and characters agree ------------------------------------------

  lemma {:induction false} CharsProper(s: Bytes)
    ensures Proper(Chars(s)) && BytesOf(Chars(s)) == s
  {
    if s != [] {
      if IsLead(s[0]) && |s| > 1 {
        CharsProper(s[2..]);
        assert s == [s[0], s[1]] + s[2..];
        assert Chars(s)[1..] == Chars(s[2..]);
      } else {
        CharsProper(s[1..]);
        assert s == [s[0]] + s[1..];
        assert Chars(s)[1..] == Chars(s[1..]);
      }
    }
  }

  /** Proper characters are read back from their bytes. */
  lemma {:induction false} BytesRead(cs: seq<Char>)
    requires Proper(cs)
    ensures Chars(BytesOf(cs)) == cs
  {
    if cs != [] {
      var s, rest := BytesOf(cs), BytesOf(cs[1..]);
      TailProper(cs, 1);
      BytesRead(cs[1..]);
      assert cs == [cs[0]] + cs[1..];
      match cs[0] {
        case Double(l, t) => assert s == [l, t] + rest && s[2..] == rest;
        case Single(b) =>
          assert s == [b] + rest && s[1..] == rest;
          assert IsLead(b) ==> cs[1..] == [];
      }
    }
  }

  lemma TailProper(cs: seq<Char>, n: nat)
    requires Proper(cs) && n <= |cs|
    ensures Proper(cs[n..])
  {
  }

  ghost function SwapChars(cs: seq<Char>, a: byte, b: byte): (ds: seq<Char>)
    ensures |ds| == |cs|
    ensures forall i :: 0 <= i < |cs| ==>
              ds[i] == if cs[i].Double? && cs[i].trail == a then Double(cs[i].lead, b) else cs[i]
  {
    seq(|cs|, i requires 0 <= i < |cs| => if cs[i].Double? && cs[i].trail == a then Double(cs[i].lead, b) else cs[i])
  }

  lemma {:induction false} SwapByChars(s: Bytes, a: byte, b: byte)
    ensures Chars(Swap(s, a, b)) == SwapChars(Chars(s), a, b)
  {
    if s != [] {
      var t := Swap(s, a, b);
      if IsLead(s[0]) && |s| > 1 {
        SwapByChars(s[2..], a, b);
        assert t[2..] == Swap(s[2..], a, b);
      } else {
        SwapByChars(s[1..], a, b);
        assert t[1..] == Swap(s[1..], a, b);
      }
    }
  }

  /** Byte by byte is character by character when no second byte looks like a backslash. */
  lemma {:induction false} StripByChars(s: Bytes)
    requires !HasTrail(Chars(s), BACKSLASH)
    ensures Strip(s) == BytesOf(Unescape(Chars(s)))
    decreases |s|
  {
    hide HasTrail, Strip, Chars, Unescape, BytesOf;
    if s == [] {
      StripNothing(s);
    } else if |s| == 1 {
      StripOne(s);
    } else {
      FirstTrail(s);
      FirstChar(s);
      if IsLead(s[0]) {
        StripByChars(s[2..]);
        StripDouble(s);
      } else if s[0] != BACKSLASH {
        StripByChars(s[1..]);
        StripOrdinary(s);
        UnescapeOrdinary(Chars(s));
        BytesOfCons(Chars(s)[0], Unescape(Chars(s)[1..]));
      } else {
        StripEscape(s);
      }
    }
  }

  lemma StripNothing(s: Bytes)
    requires s == []
    ensures Strip(s) == BytesOf(Unescape(Chars(s)))
  {
  }

  lemma StripDouble(s: Bytes)
    requires |s| > 1 && IsLead(s[0]) && s[1] != BACKSLASH && Strip(s[2..]) == BytesOf(Unescape(Chars(s[2..])))
    ensures Strip(s) == BytesOf(Unescape(Chars(s)))
  {
  }

  lemma BytesOfCons(c: Char, more: seq<Char>)
    ensures BytesOf([c] + more) == (match c case Single(b) => [b] case Double(l, t) => [l, t]) + BytesOf(more)
  {
  }

  lemma StripOne(s: Bytes)
    requires |s| == 1
    ensures Strip(s) == BytesOf(Unescape(Chars(s)))
  {
  }

  /** A backslash and what follows. */
  lemma {:induction false} StripEscape(s: Bytes)
    requires |s| > 1 && s[0] == BACKSLASH && !HasTrail(Chars(s), BACKSLASH)
    ensures Strip(s) == BytesOf(Unescape(Chars(s)))
    decreases |s|, 0
  {
    hide HasTrail, Strip, Chars, Unescape, BytesOf;
    var cs := Chars(s);
    FirstTrail(s);
    FirstChar(s);
    FirstChar(s[1..]);
    assert s[1..][1..] == s[2..];
    UnescapeEscape(cs);
    StripTwo(s);
    if IsLead(s[1]) {
      StripByChars(s[1..]);
      AfterLead(cs[1]);
      UnescapeOrdinary(cs[1..]);
      assert cs[2..] == cs[1..][1..];
    } else {
      FirstTrail(s[1..]);
      StripByChars(s[2..]);
      BytesOfAfter(cs[1], Unescape(cs[2..]));
      assert cs[2..] == cs[1..][1..];
      if s[1] !in ESCAPES && s[1] != PERCENT && s[1] != UNDERSCORE { StripOrdinary(s[1..]); }
    }
  }

  lemma FirstChar(s: Bytes)
    requires s != []
    ensures Chars(s) != []
    ensures !IsLead(s[0]) ==> Chars(s)[0] == Single(s[0]) && Chars(s)[1..] == Chars(s[1..])
    ensures IsLead(s[0]) && |s| > 1 ==> Chars(s)[0] == Double(s[0], s[1]) && Chars(s)[1..] == Chars(s[2..])
    ensures IsLead(s[0]) ==> Chars(s)[0].Double? || IsLead(Chars(s)[0].b)
  {
  }

  /** Escapes are ASCII: a two-byte character or a byte from 0x80 on just loses the backslash. */
  lemma AfterLead(c: Char)
    requires c.Double? || IsLead(c.b)
    ensures After(c) == [c] && c != Single(BACKSLASH)
  {
  }

  lemma UnescapeOrdinary(cs: seq<Char>)
    requires cs != [] && cs[0] != Single(BACKSLASH)
    ensures Unescape(cs) == [cs[0]] + Unescape(cs[1..])
  {
  }

  lemma StripOrdinary(s: Bytes)
    requires s != [] && s[0] != BACKSLASH
    ensures Strip(s) == [s[0]] + Strip(s[1..])
  {
  }

  lemma StripTwo(s: Bytes)
    requires |s| > 1 && s[0] == BACKSLASH
    ensures Strip(s) ==
            if s[1] in ESCAPES then [ESCAPES[s[1]]] + Strip(s[2..])
            else if s[1] == PERCENT || s[1] == UNDERSCORE then [BACKSLASH, s[1]] + Strip(s[2..])
            else Strip(s[1..])
  {
  }

  lemma BytesOfAfter(c: Char, more: seq<Char>)
    requires c.Single?
    ensures BytesOf(After(c) + more) ==
            if c.b in ESCAPES then [ESCAPES[c.b]] + BytesOf(more)
            else if c.b == PERCENT || c.b == UNDERSCORE then [BACKSLASH, c.b] + BytesOf(more)
            else [c.b] + BytesOf(more)
  {
  }

  /** Unescaping leaves two-byte characters alone: it keeps them proper, commutes with
      changes to them, and loses none. */
  lemma {:induction false} UnescapeKeeps(cs: seq<Char>, a: byte, b: byte)
    requires Proper(cs)
    ensures Proper(Unescape(cs))
    ensures Unescape(SwapChars(cs, a, b)) == SwapChars(Unescape(cs), a, b)
    ensures HasTrail(Unescape(cs), a) == HasTrail(cs, a)
    decreases |cs|
  {
    hide Proper, HasTrail;
    var ds := SwapChars(cs, a, b);
    EmptyProper(a);
    if cs != [] {
      if cs[0] != Single(BACKSLASH) {
        KeepsOne(cs, 1, a, b);
        assert cs == [cs[0]] + cs[1..];
        HasTrailCons(cs[0], cs[1..], a);
        PutBack(cs[0], Unescape(cs[1..]), cs, 0, a, b);
      } else if |cs| > 1 {
        assert cs == [cs[0]] + ([cs[1]] + cs[2..]);
        HasTrailCons(cs[0], [cs[1]] + cs[2..], a);
        HasTrailCons(cs[1], cs[2..], a);
        KeepsOne(cs, 2, a, b);
        KeepsEscape(cs, a, b);
      } else {
        assert cs == [cs[0]] + [];
        HasTrailCons(cs[0], [], a);
      }
    }
  }

  lemma EmptyProper(a: byte)
    ensures Proper([]) && !HasTrail([], a)
  {
  }

  lemma {:induction false} KeepsOne(cs: seq<Char>, n: nat, a: byte, b: byte)
    requires Proper(cs) && 0 < n <= |cs|
    ensures var rest := cs[n..];
            && Proper(Unescape(rest)) && HasTrail(Unescape(rest), a) == HasTrail(rest, a)
            && Unescape(SwapChars(cs, a, b)[n..]) == SwapChars(Unescape(rest), a, b)
    decreases |cs|, 0
  {
    hide HasTrail, Unescape, Proper;
    TailProper(cs, n);
    UnescapeKeeps(cs[n..], a, b);
    assert SwapChars(cs, a, b)[n..] == SwapChars(cs[n..], a, b);
  }

  /** Putting a character of `cs` in front of the unescaped rest. */
  lemma PutBack(c: Char, more: seq<Char>, cs: seq<Char>, i: nat, a: byte, b: byte)
    requires Proper(cs) && i < |cs| && c == cs[i] && Proper(more) && (i == |cs| - 1 ==> more == [])
    ensures Proper([c] + more) && HasTrail([c] + more, a) == ((c.Double? && c.trail == a) || HasTrail(more, a))
    ensures SwapChars([c] + more, a, b) == SwapChars([c], a, b) + SwapChars(more, a, b)
    ensures SwapChars(cs, a, b)[i] == SwapChars([c], a, b)[0]
  {
    hide HasTrail;
    HasTrailCons(c, more, a);
  }

  lemma KeepsEscape(cs: seq<Char>, a: byte, b: byte)
    requires Proper(cs) && |cs| > 1 && cs[0] == Single(BACKSLASH)
    requires HasTrail(cs, a) == ((cs[1].Double? && cs[1].trail == a) || HasTrail(cs[2..], a))
    requires var rest := cs[2..];
             && Proper(Unescape(rest)) && HasTrail(Unescape(rest), a) == HasTrail(rest, a)
             && Unescape(SwapChars(cs, a, b)[2..]) == SwapChars(Unescape(rest), a, b)
    ensures Proper(Unescape(cs))
    ensures Unescape(SwapChars(cs, a, b)) == SwapChars(Unescape(cs), a, b)
    ensures HasTrail(Unescape(cs), a) == HasTrail(cs, a)
  {
    hide Proper, HasTrail, Unescape, SwapChars, After;
    var more, ds := Unescape(cs[2..]), SwapChars(cs, a, b);
    UnescapeEscape(cs);
    UnescapeEscape(ds);
    if |cs| == 2 { UnescapeNothing(cs[2..]); }
    SwapAfter(After(cs[1]), more, a, b);
    AfterSwapped(cs[1], ds[1], a, b);
    ProperAfter(cs, more);
    TrailAfter(cs[1], more, a);
  }

  lemma AfterSwapped(c: Char, d: Char, a: byte, b: byte)
    requires d == if c.Double? && c.trail == a then Double(c.lead, b) else c
    ensures SwapChars(After(c), a, b) == After(d)
  {
  }

  lemma ProperAfter(cs: seq<Char>, more: seq<Char>)
    requires Proper(cs) && |cs| > 1 && cs[0] == Single(BACKSLASH) && Proper(more) && (|cs| == 2 ==> more == [])
    ensures Proper(After(cs[1]) + more)
  {
  }

  lemma TrailAfter(c: Char, more: seq<Char>, a: byte)
    ensures HasTrail(After(c) + more, a) == ((c.Double? && c.trail == a) || HasTrail(more, a))
  {
    hide HasTrail;
    var last := After(c)[|After(c)| - 1];
    HasTrailCons(last, more, a);
    if |After(c)| == 2 {
      HasTrailCons(After(c)[0], [last] + more, a);
      assert After(c) + more == [After(c)[0]] + ([last] + more);
    }
  }

  /** What a backslash and the character after it become. */
  ghost function After(c: Char): (r: seq<Char>)
    ensures 0 < |r| <= 2
  {
    if c.Single? && c.b in ESCAPES then [Single(ESCAPES[c.b])]
    else if c.Single? && (c.b == PERCENT || c.b == UNDERSCORE) then [Single(BACKSLASH), c]
    else [c]
  }

  lemma UnescapeEscape(cs: seq<Char>)
    requires |cs| > 1 && cs[0] == Single(BACKSLASH)
    ensures Unescape(cs) == After(cs[1]) + Unescape(cs[2..])
  {
  }

  lemma UnescapeNothing(cs: seq<Char>)
    requires cs == []
    ensures Unescape(cs) == []
  {
  }

  lemma SwapAfter(front: seq<Char>, more: seq<Char>, a: byte, b: byte)
    ensures SwapChars(front + more, a, b) == SwapChars(front, a, b) + SwapChars(more, a, b)
  {
  }

  // ---- the pipeline --------------------------------------------------------

  /** What a literal of a GBK statement becomes; `seen` when some other part of the statement
      was masked. */
  ghost function GbkLiteral(s: Bytes, seen: bool): Bytes {
    var stripped := Strip(Swap(s, BACKSLASH, MASK));
    if seen || HasTrail(Chars(s), BACKSLASH) then Swap(stripped, MASK, BACKSLASH) else stripped
  }

  /** The pipeline unescapes character by character, leaving two-byte characters as they
      are, exactly when nothing was masked or no character of the literal already ends in
      the masking byte. */
  lemma GbkLiteralIff(s: Bytes, seen: bool)
    ensures GbkLiteral(s, seen) == BytesOf(Unescape(Chars(s))) <==>
            !((seen || HasTrail(Chars(s), BACKSLASH)) && HasTrail(Chars(s), MASK))
  {
    hide Unescape, Chars, Strip, Swap, BytesOf;
    var cs := Chars(s);
    var masked := Swap(s, BACKSLASH, MASK);
    var ms := SwapChars(cs, BACKSLASH, MASK);
    CharsProper(s);
    SwapByChars(s, BACKSLASH, MASK);
    assert !HasTrail(ms, BACKSLASH);
    StripByChars(masked);
    MaskedProper(cs);
    UnescapeKeeps(ms, MASK, BACKSLASH);
    UnescapeKeeps(cs, MASK, BACKSLASH);
    BytesRead(Unescape(ms));
    BytesRead(Unescape(cs));
    if seen || HasTrail(cs, BACKSLASH) {
      var text := Strip(masked);
      SwapByChars(text, MASK, BACKSLASH);
      CharsProper(Swap(text, MASK, BACKSLASH));
      assert SwapChars(ms, MASK, BACKSLASH) == SwapChars(cs, MASK, BACKSLASH);
      assert Chars(Swap(text, MASK, BACKSLASH)) == SwapChars(Unescape(cs), MASK, BACKSLASH);
      NothingToSwap(Unescape(cs));
    } else {
      assert ms == cs;
    }
  }

  /** Of two characters, one ending in a backslash and one in the masking byte, the second
      becomes the first. */
  lemma MaskedTrailIsLost()
    ensures var s := [0x81, 0x5C, 0x81, 0x7F];
            GbkLiteral(s, false) == [0x81, 0x5C, 0x81, 0x5C] && BytesOf(Unescape(Chars(s))) == s
  {
    var s: Bytes := [0x81, 0x5C, 0x81, 0x7F];
    TwoDoubles(0x81, 0x5C, 0x81, 0x7F);
    TwoDoubles(0x81, 0x7F, 0x81, 0x7F);
    assert Chars(s)[0] == Double(0x81, 0x5C);
    NoBackslash(0x81, 0x7F, 0x81, 0x7F);
  }

  lemma TwoDoubles(l1: byte, t1: byte, l2: byte, t2: byte)
    requires IsLead(l1) && IsLead(l2)
    ensures var s, cs := [l1, t1, l2, t2], [Double(l1, t1), Double(l2, t2)];
            && Chars(s) == cs && Unescape(cs) == cs && BytesOf(cs) == s
            && forall a, b :: Swap(s, a, b) == [l1, if t1 == a then b else t1, l2, if t2 == a then b else t2]
  {
    var s, cs := [l1, t1, l2, t2], [Double(l1, t1), Double(l2, t2)];
    var t, ds := [l2, t2], [Double(l2, t2)];
    assert t[2..] == [] && ds[1..] == [] && s[2..] == t && cs[1..] == ds;
    assert Chars(t) == ds + Chars([]) && Unescape(ds) == ds + Unescape([]) && BytesOf(ds) == t + BytesOf([]);
    assert Chars(s) == [Double(l1, t1)] + Chars(t) && Unescape(cs) == [Double(l1, t1)] + Unescape(ds);
    assert BytesOf(cs) == [l1, t1] + BytesOf(ds);
  }

  lemma NoBackslash(l1: byte, t1: byte, l2: byte, t2: byte)
    requires l1 != BACKSLASH && t1 != BACKSLASH && l2 != BACKSLASH && t2 != BACKSLASH
    ensures Strip([l1, t1, l2, t2]) == [l1, t1, l2, t2]
  {
    var s := [l1, t1, l2, t2];
    assert s[1..] == [t1, l2, t2] && s[1..][1..] == [l2, t2] && s[1..][1..][1..] == [t2] && s[1..][1..][1..][1..] == [];
    assert Strip([t2]) == [t2] + Strip([]);
    assert Strip([l2, t2]) == [l2] + Strip([t2]);
    assert Strip([t1, l2, t2]) == [t1] + Strip([l2, t2]);
  }

  lemma MaskedProper(cs: seq<Char>)
    requires Proper(cs)
    ensures Proper(SwapChars(cs, BACKSLASH, MASK))
  {
  }

  lemma NothingToSwap(cs: seq<Char>)
    ensures SwapChars(cs, MASK, BACKSLASH) == cs <==> !HasTrail(cs, MASK)
  {
  }

  /** Masking the whole statement masks a literal in it, if the text before the literal
      does not end inside a two-byte character. */
  lemma {:induction false} LiteralMasked(before: Bytes, s: Bytes, after: Bytes, a: byte, b: byte)
    requires before == [] || !IsLoneLead(Chars(before)[|Chars(before)| - 1])
    ensures Swap(before + s + after, a, b)[|before|..|before| + |s|] == Swap(s, a, b)
    decreases |before|
  {
    hide Swap, Chars, IsLoneLead;
    var all := before + s + after;
    if before == [] {
      assert all == s + after;
      SwapPrefix(s, after, a, b);
    } else {
      var n := if IsLead(before[0]) then 2 else 1;
      LeadHasTrail(before);
      var rest := before[n..];
      LiteralMasked(rest, s, after, a, b);
      assert all[n..] == rest + s + after;
      SwapDrop(all, a, b);
      SliceOfDrop(Swap(all, a, b), n, |before|, |before| + |s|);
    }
  }

  lemma SliceOfDrop(s: Bytes, n: nat, from: nat, to: nat)
    requires n <= from <= to <= |s|
    ensures s[from..to] == s[n..][from - n..to - n]
  {
  }

  lemma SwapDrop(s: Bytes, a: byte, b: byte)
    requires s != [] && (IsLead(s[0]) ==> |s| > 1)
    ensures var n := if IsLead(s[0]) then 2 else 1; Swap(s, a, b)[n..] == Swap(s[n..], a, b)
  {
  }

  lemma LeadHasTrail(s: Bytes)
    requires s != [] && !IsLoneLead(Chars(s)[|Chars(s)| - 1])
    ensures IsLead(s[0]) ==> |s| > 1
    ensures var rest := s[if IsLead(s[0]) then 2 else 1..]; rest == [] || !IsLoneLead(Chars(rest)[|Chars(rest)| - 1])
  {
  }

  ghost predicate IsLoneLead(c: Char) { c.Single? && IsLead(c.b) }

  lemma {:induction false} SwapPrefix(s: Bytes, after: Bytes, a: byte, b: byte)
    ensures Swap(s + after, a, b)[..|s|] == Swap(s, a, b)
    decreases |s|
  {
    var all := s + after;
    if s == [] {
      assert Swap(all, a, b)[..0] == [];
    } else if IsLead(s[0]) && |s| > 1 {
      var head := [s[0], if s[1] == a then b else s[1]];
      SwapPrefix(s[2..], after, a, b);
      assert all[2..] == s[2..] + after;
      assert Swap(all, a, b) == head + Swap(all[2..], a, b);
      assert (head + Swap(all[2..], a, b))[..|s|] == head + Swap(all[2..], a, b)[..|s| - 2];
    } else if !IsLead(s[0]) {
      SwapPrefix(s[1..], after, a, b);
      assert all[1..] == s[1..] + after;
      assert Swap(all, a, b) == [s[0]] + Swap(all[1..], a, b);
      assert ([s[0]] + Swap(all[1..], a, b))[..|s|] == [s[0]] + Swap(all[1..], a, b)[..|s| - 1];
    } else {
      assert s[1..] == [] && Swap(s[1..], a, b) == [];
      assert Swap(s, a, b) == [s[0]] && Swap(all, a, b)[0] == all[0];
    }
  }

  /** Swapping changes a text exactly when there is something to swap. */
  lemma SwapChanges(s: Bytes)
    ensures Swap(s, BACKSLASH, MASK) != s <==> HasTrail(Chars(s), BACKSLASH)
  {
    hide Chars, Swap, BytesOf, HasTrail;
    SwapByChars(s, BACKSLASH, MASK);
    CharsProper(s);
    CharsProper(Swap(s, BACKSLASH, MASK));
    SwapCharsChanges(Chars(s));
  }

  lemma SwapCharsChanges(cs: seq<Char>)
    ensures SwapChars(cs, BACKSLASH, MASK) != cs <==> HasTrail(cs, BACKSLASH)
  {
  }

  /** A literal inside a statement that is masked as a whole. */
  lemma LiteralInStatement(sql: Bytes, from: nat, to: nat)
    requires from <= to <= |sql|
    requires from == 0 || !IsLoneLead(Chars(sql[..from])[|Chars(sql[..from])| - 1])
    ensures var stripped, s := Strip(Swap(sql, BACKSLASH, MASK)[from..to]), sql[from..to];
            (if HasTrail(Chars(sql), BACKSLASH) then Swap(stripped, MASK, BACKSLASH) else stripped) == BytesOf(Unescape(Chars(s)))
            <==> !(HasTrail(Chars(sql), BACKSLASH) && HasTrail(Chars(s), MASK))
  {
    hide Chars, Swap, BytesOf, HasTrail, Unescape, Strip, IsLoneLead;
    var before, s, after := sql[..from], sql[from..to], sql[to..];
    assert before + s + after == sql;
    LiteralMasked(before, s, after, BACKSLASH, MASK);
    SwapChanges(sql);
    SwapChanges(s);
    GbkLiteralIff(s, HasTrail(Chars(sql), BACKSLASH));
  }

  /** A statement in GBK, from its bytes to the text of the literal at `[from, to)`: masked as a
      whole, the literal copied out, unescaped and unmasked. */
  method ReadGbkLiteral(sql: Bytes, from: nat, to: nat) returns (text: Bytes)
    requires from <= to <= |sql|
    requires from == 0 || !IsLoneLead(Chars(sql[..from])[|Chars(sql[..from])| - 1])
    ensures text == BytesOf(Unescape(Chars(sql[from..to]))) <==>
            !(HasTrail(Chars(sql), BACKSLASH) && HasTrail(Chars(sql[from..to]), MASK))
  {
    hide Chars, Swap, BytesOf, HasTrail, Unescape, Strip, IsLoneLead;
    var parser := new SqlParser;
    parser.isGbk, parser.has5c := true, false;
    var buffer := new byte[|sql|](i requires 0 <= i < |sql| => sql[i]);
    assert buffer[..] == sql;
    parser.MaskTrails(buffer);
    var masked := buffer[from..to];
    var literal := new Text;
    literal.value := new byte[to - from + 1](i requires 0 <= i => if i < |masked| then masked[i] else 0);
    literal.length := to - from;
    assert literal.Contents() == masked;
    parser.FinishLiteral(literal);
    text := literal.Contents();
    LiteralInStatement(sql, from, to);
  }

  // ---- in bytes ------------------------------------------------------------

  /** Unescaping in literal bytes: the eight escapes, the two wildcards that keep the backslash, and
      every other byte, which loses it. */
  lemma StripInBytes(b: byte, rest: Bytes)
    ensures Strip([0x5C, b] + rest)
            == (match b
                case 0x5C => [0x5C]
                case 0x22 => [0x22]
                case 0x27 => [0x27]
                case 0x72 => [0x0D]
                case 0x74 => [0x09]
                case 0x6E => [0x0A]
                case 0x62 => [0x08]
                case 0x5A => [0x1A]
                case 0x25 => [0x5C, 0x25]
                case 0x5F => [0x5C, 0x5F]
                case _ => [b]) + Strip(rest)
    ensures b != 0x5C ==> Strip([b] + rest) == [b] + Strip(rest)
    ensures Strip([]) == [] && Strip([0x5C]) == []
  {
    var s := [0x5C, b] + rest;
    assert s[1..] == [b] + rest && s[2..] == rest && ([b] + rest)[1..] == rest;
  }

  /** The same by characters; a two-byte character behind a backslash stays as it is. */
  lemma UnescapeInBytes(c: Char, rest: seq<Char>)
    ensures Unescape([Single(0x5C), c] + rest)
            == (match c
                case Double(l, t) => [Double(l, t)]
                case Single(b) =>
                  match b
                  case 0x5C => [Single(0x5C)]
                  case 0x22 => [Single(0x22)]
                  case 0x27 => [Single(0x27)]
                  case 0x72 => [Single(0x0D)]
                  case 0x74 => [Single(0x09)]
                  case 0x6E => [Single(0x0A)]
                  case 0x62 => [Single(0x08)]
                  case 0x5A => [Single(0x1A)]
                  case 0x25 => [Single(0x5C), Single(0x25)]
                  case 0x5F => [Single(0x5C), Single(0x5F)]
                  case _ => [Single(b)]) + Unescape(rest)
    ensures c != Single(0x5C) ==> Unescape([c] + rest) == [c] + Unescape(rest)
  {
    hide Unescape;
    var cs := [Single(0x5C), c] + rest;
    assert cs[2..] == rest && ([c] + rest)[1..] == rest;
    UnescapeEscape(cs);
    if c != Single(0x5C) { UnescapeOrdinary([c] + rest); }
  }

  /** A byte from 0x80 on takes the next one with it; as its second byte 0x5C is masked as 0x7F, and
      0x7F is unmasked as 0x5C. */
  lemma CharactersInBytes(b: byte, t: byte, rest: Bytes)
    ensures Chars([b, t] + rest) == if b >= 0x80 then [Double(b, t)] + Chars(rest) else [Single(b)] + Chars([t] + rest)
    ensures b >= 0x80 ==>
              && Swap([b, t] + rest, BACKSLASH, MASK) == [b, if t == 0x5C then 0x7F else t] + Swap(rest, BACKSLASH, MASK)
              && Swap([b, t] + rest, MASK, BACKSLASH) == [b, if t == 0x7F then 0x5C else t] + Swap(rest, MASK, BACKSLASH)
    ensures b < 0x80 ==>
              && Swap([b] + rest, BACKSLASH, MASK) == [b] + Swap(rest, BACKSLASH, MASK)
              && Swap([b] + rest, MASK, BACKSLASH) == [b] + Swap(rest, MASK, BACKSLASH)
  {
    var s := [b, t] + rest;
    assert s[2..] == rest && s[1..] == [t] + rest && ([b] + rest)[1..] == rest;
  }

  // ---- escaping ------------------------------------------------------------

  /** Escaping as the table allows: the character, if any, that stands for `b`. */
  ghost function EscapeOf(b: byte): Bytes {
    if exists e :: e in ESCAPES && ESCAPES[e] == b
    then var e :| e in ESCAPES && ESCAPES[e] == b; [BACKSLASH, e]
    else [b]
  }

  ghost function Escape(s: Bytes): Bytes {
    if s == [] then [] else EscapeOf(s[0]) + Escape(s[1..])
  }

  /** Unescaping undoes escaping, for every text. */
  lemma {:induction false} StripUndoesEscape(s: Bytes)
    ensures Strip(Escape(s)) == s
  {
    if s != [] {
      StripUndoesEscape(s[1..]);
      var more := Escape(s[1..]);
      var all := EscapeOf(s[0]) + more;
      if exists e :: e in ESCAPES && ESCAPES[e] == s[0] {
        assert all[2..] == more;
      } else {
        assert ESCAPES[BACKSLASH] == BACKSLASH;
        assert all[1..] == more;
      }
    }
  }
}
