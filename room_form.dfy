/**
 * The room-creation form of client/components/CreatePrivateRoomForm.tsx: the
 * room id field keeps what was typed in upper case, and the submit handler
 * runs a fixed chain of checks over (room id, password) in which the first
 * failing check decides the error shown; the request is sent to the server
 * only when every check passes.  The browser's own checks of the inputs'
 * minLength/maxLength attributes, which run before the handler, are not
 * modelled.
 *
 * JavaScript strings are sequences of UTF-16 code units while a Dafny char is
 * a Unicode scalar value, so `.length` is modelled by Utf16Length.
 */
module RoomForm {
  import opened Wrappers
  import opened ChatSpec

  // ---------------------------------------------------------------------------
  // String.prototype.trim

  /** The characters `trim` removes: ECMAScript WhiteSpace and LineTerminator. */
  predicate IsJsWhitespace(c: char) {
    || c == '\t' || c == '\n' || c == '\U{000B}' || c == '\U{000C}' || c == '\r' || c == ' '
    || c == '\U{00A0}' || c == '\U{1680}' || ('\U{2000}' <= c <= '\U{200A}')
    || c == '\U{2028}' || c == '\U{2029}' || c == '\U{202F}' || c == '\U{205F}'
    || c == '\U{3000}' || c == '\U{FEFF}'
  }

  /** s without its leading whitespace. */
  function TrimStart(s: string): (t: string)
    ensures |t| <= |s| && t == s[|s| - |t|..]
    ensures forall i :: 0 <= i < |s| - |t| ==> IsJsWhitespace(s[i])
    ensures t == [] || !IsJsWhitespace(t[0])
  {
    if s == [] || !IsJsWhitespace(s[0]) then s else TrimStart(s[1..])
  }

  /** s without its trailing whitespace. */
  function TrimEnd(s: string): (t: string)
    ensures |t| <= |s| && t == s[..|t|]
    ensures forall i :: |t| <= i < |s| ==> IsJsWhitespace(s[i])
    ensures t == [] || !IsJsWhitespace(t[|t| - 1])
  {
    if s == [] || !IsJsWhitespace(s[|s| - 1]) then s else TrimEnd(s[..|s| - 1])
  }

  /** `s.trim()`. */
  function Trim(s: string): string {
    TrimEnd(TrimStart(s))
  }

  /** `!s.trim()`: the string is empty once trimmed. */
  predicate Blank(s: string) {
    Trim(s) == []
  }

  /** A string is blank exactly when every character of it is whitespace. */
  lemma BlankIffAllWhitespace(s: string)
    ensures Blank(s) <==> forall i :: 0 <= i < |s| ==> IsJsWhitespace(s[i])
  {
    var t := TrimStart(s);
    if Blank(s) {
      assert t == [];
    } else {
      assert t != [];
      assert !IsJsWhitespace(s[|s| - |t|]);
    }
  }

  // ---------------------------------------------------------------------------
  // The form's inputs

  /** A character of `[A-Za-z0-9-_]`. */
  predicate IsRoomIdChar(c: char) {
    ('A' <= c <= 'Z') || ('a' <= c <= 'z') || ('0' <= c <= '9') || c == '-' || c == '_'
  }

  /** `/^[A-Za-z0-9-_]+$/.test(s)`: one or more characters, all from the class. */
  predicate MatchesRoomIdPattern(s: string) {
    |s| > 0 && forall i :: 0 <= i < |s| ==> IsRoomIdChar(s[i])
  }

  /** The UTF-16 length of one character: two code units outside the Basic Multilingual Plane. */
  function Utf16Units(c: char): (n: nat)
    ensures n == 1 || n == 2
  {
    if c as int < 0x1_0000 then 1 else 2
  }

  /** The positions of s holding a character outside the Basic Multilingual Plane. */
  ghost function Astral(s: string): set<nat> {
    set i: nat | i < |s| && s[i] as int >= 0x1_0000
  }

  /**
   * `s.length`: the number of UTF-16 code units, one per character plus one
   * more for every character outside the Basic Multilingual Plane.
   */
  function Utf16Length(s: string): (n: nat)
    ensures n == |s| + |Astral(s)|
    ensures |s| <= n <= 2 * |s|
  {
    if s == [] then 0
    else
      var p := s[..|s| - 1];
      assert Astral(s) == Astral(p) + (if s[|s| - 1] as int < 0x1_0000 then {} else {|p|});
      Utf16Length(p) + Utf16Units(s[|s| - 1])
  }

  /**
   * `c.toUpperCase()` where the result lies in the room id alphabet or the
   * character is already ASCII: a-z become A-Z; the sharp s, the dotless i, the
   * long s and the Latin ligatures U+FB00-U+FB06 become ASCII letters; every
   * other character is kept (its upper case, if any, is outside ASCII).
   */
  function UpperChar(c: char): (u: string)
    ensures 1 <= |u| <= 3
    ensures forall i :: 0 <= i < |u| ==> !('a' <= u[i] <= 'z')
    ensures 'a' <= c <= 'z' ==> |u| == 1 && 'A' <= u[0] <= 'Z' && u[0] as int - 'A' as int == c as int - 'a' as int
    ensures !('a' <= c <= 'z') && c as int < 0x80 ==> u == [c]
  {
    if 'a' <= c <= 'z' then [(c as int - 32) as char]
    else if c == '\U{00DF}' then "SS"
    else if c == '\U{0131}' then "I"
    else if c == '\U{017F}' then "S"
    else if c == '\U{FB00}' then "FF"
    else if c == '\U{FB01}' then "FI"
    else if c == '\U{FB02}' then "FL"
    else if c == '\U{FB03}' then "FFI"
    else if c == '\U{FB04}' then "FFL"
    else if c == '\U{FB05}' || c == '\U{FB06}' then "ST"
    else [c]
  }

  /** The room id state after the field's change handler: `value.toUpperCase()`. */
  function RoomIdInput(typed: string): (roomId: string)
    ensures forall i :: 0 <= i < |roomId| ==> !('a' <= roomId[i] <= 'z')
    ensures |typed| <= |roomId| <= 3 * |typed|
    ensures (forall i :: 0 <= i < |typed| ==> typed[i] as int < 0x80) ==>
      && |roomId| == |typed|
      && forall i :: 0 <= i < |typed| ==>
           roomId[i] == if 'a' <= typed[i] <= 'z' then (typed[i] as int - 'a' as int + 'A' as int) as char else typed[i]
  {
    if typed == [] then [] else UpperChar(typed[0]) + RoomIdInput(typed[1..])
  }

  /** Typing is character by character: the field's value for a + b is that for a followed by that for b. */
  lemma {:induction false} RoomIdInputAppend(a: string, b: string)
    ensures RoomIdInput(a + b) == RoomIdInput(a) + RoomIdInput(b)
  {
    if a == [] {
      assert a + b == b;
    } else {
      assert (a + b)[0] == a[0] && (a + b)[1..] == a[1..] + b;
      RoomIdInputAppend(a[1..], b);
    }
  }

  // ---------------------------------------------------------------------------
  // handleSubmit

  const RoomIdRequired := "Room ID is required"
  const RoomIdAlphabet := "Room ID can only contain letters, numbers, hyphens, and underscores"
  const RoomIdTooLong := "Room ID must be 32 characters or less"
  const PasswordRequired := "Password is required"
  const PasswordTooShort := "Password must be at least 4 characters"

  /** What handleSubmit does: send create-private-room, or show the first failing check's message. */
  datatype Verdict = Accepted | Rejected(message: string)

  /** The checks of handleSubmit, in order; the first that fails returns its message. */
  function ValidateRoomForm(roomId: string, password: string): (v: Verdict)
    ensures v == Rejected(RoomIdRequired) <==> Blank(roomId)
    ensures v == Rejected(RoomIdAlphabet) <==> !Blank(roomId) && !MatchesRoomIdPattern(roomId)
    ensures v == Rejected(RoomIdTooLong) <==>
      !Blank(roomId) && MatchesRoomIdPattern(roomId) && Utf16Length(roomId) > 32
    ensures v == Rejected(PasswordRequired) <==>
      !Blank(roomId) && MatchesRoomIdPattern(roomId) && Utf16Length(roomId) <= 32 && Blank(password)
    ensures v == Rejected(PasswordTooShort) <==>
      && !Blank(roomId) && MatchesRoomIdPattern(roomId) && Utf16Length(roomId) <= 32
      && !Blank(password) && Utf16Length(password) < 4
    ensures v == Accepted <==>
      && MatchesRoomIdPattern(roomId) && |roomId| <= 32
      && !Blank(password) && Utf16Length(password) >= 4
  {
    PatternFacts(roomId);
    if Blank(roomId) then Rejected(RoomIdRequired)
    else if !MatchesRoomIdPattern(roomId) then Rejected(RoomIdAlphabet)
    else if Utf16Length(roomId) > 32 then Rejected(RoomIdTooLong)
    else if Blank(password) then Rejected(PasswordRequired)
    else if Utf16Length(password) < 4 then Rejected(PasswordTooShort)
    else Accepted
  }

  /**
   * A string that matches the pattern is not blank, and it is ASCII, so its
   * length in code units is its number of characters.
   */
  lemma PatternFacts(s: string)
    ensures MatchesRoomIdPattern(s) ==> !Blank(s) && Utf16Length(s) == |s|
  {
    if MatchesRoomIdPattern(s) {
      BlankIffAllWhitespace(s);
      assert !IsJsWhitespace(s[0]);
    }
  }

  /**
   * An id typed into the form that passes the pattern check, as every
   * accepted id does, consists of A-Z, 0-9, '-' and '_' only, and so can never
   * be the id of the public room.
   */
  lemma AcceptedIdIsUpperCase(typed: string)
    ensures var roomId := RoomIdInput(typed);
      MatchesRoomIdPattern(roomId) ==>
        && (forall i :: 0 <= i < |roomId| ==>
              ('A' <= roomId[i] <= 'Z') || ('0' <= roomId[i] <= '9') || roomId[i] == '-' || roomId[i] == '_')
        && roomId != PublicRoomId
  {
    var roomId := RoomIdInput(typed);
    assert roomId != PublicRoomId by {
      assert 'a' <= PublicRoomId[0] <= 'z';
    }
  }

  /**
   * An accepted form passes the server's own guard: create-private-room then
   * either creates the room or reports that the id is taken.
   */
  lemma AcceptedFormReachesServer(st: ServerState, socketId: string, roomId: string, password: string,
                                  userId: string, username: string, now: int)
    ensures ValidateRoomForm(roomId, password) == Accepted ==>
      && Present(Some(roomId)) && Present(Some(password))
      && var r := CreatePrivateRoom(st, socketId, Some(roomId), Some(password), userId, username, now);
         r.reply.Joined? || r.reply == Failed("Room ID already exists")
  {
  }
}
