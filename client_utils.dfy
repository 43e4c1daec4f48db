/** The pure helpers of `frontend/js/utils.js`: the client-side validators, a user's initials,
    the score percentage and its grade. Strings are sequences of code points; JavaScript's UTF-16
    code units appear only where a length is compared. */
module ClientUtils {
  import opened Wrappers
  import opened JsonValues
  import Numeric
  import Validation
  import PyText

  // ------------------------------------------------------------ whitespace

  /** JavaScript's WhiteSpace and LineTerminator characters: what `trim()` removes and what the
      regular-expression class `\s` matches. */
  predicate JsSpace(c: char) {
    || c == '\t' || c == '\n' || c == '\U{B}' || c == '\U{C}' || c == '\r' || c == ' '
    || c == '\U{A0}' || c == '\U{1680}' || ('\U{2000}' <= c <= '\U{200A}')
    || c == '\U{2028}' || c == '\U{2029}' || c == '\U{202F}' || c == '\U{205F}' || c == '\U{3000}'
    || c == '\U{FEFF}'
  }

  predicate AllJsSpace(s: string) {
    forall i :: 0 <= i < |s| ==> JsSpace(s[i])
  }

  function TrimStart(s: string): (r: string)
    ensures |r| <= |s| && r == s[|s| - |r|..]
    ensures r == [] || !JsSpace(r[0])
  {
    if |s| > 0 && JsSpace(s[0]) then TrimStart(s[1..]) else s
  }

  /** What `TrimStart` removes is whitespace. */
  lemma {:induction false} TrimStartSpace(s: string)
    ensures AllJsSpace(s[..|s| - |TrimStart(s)|])
  {
    if |s| > 0 && JsSpace(s[0]) {
      var t := s[1..];
      TrimStartSpace(t);
      var m := |t| - |TrimStart(t)|;
      assert TrimStart(s) == TrimStart(t);
      forall i | 0 <= i < m + 1 ensures JsSpace(s[i]) {
        if i > 0 {
          assert s[i] == t[..m][i - 1];
        }
      }
    }
  }

  function TrimEnd(s: string): (r: string)
    ensures |r| <= |s| && r == s[..|r|]
    ensures r == [] || !JsSpace(r[|r| - 1])
  {
    if |s| > 0 && JsSpace(s[|s| - 1]) then TrimEnd(s[..|s| - 1]) else s
  }

  /** What `TrimEnd` removes is whitespace. */
  lemma {:induction false} TrimEndSpace(s: string)
    ensures AllJsSpace(s[|TrimEnd(s)|..])
  {
    if |s| > 0 && JsSpace(s[|s| - 1]) {
      var t := s[..|s| - 1];
      TrimEndSpace(t);
      assert s[|TrimEnd(s)|..] == t[|TrimEnd(t)|..] + [s[|s| - 1]];
    }
  }

  /** The number of leading whitespace characters of `s`. */
  function Lead(s: string): (n: nat)
    ensures n <= |s|
  {
    |s| - |TrimStart(s)|
  }

  /** `s.trim()`: the part of `s` between its leading and its trailing whitespace. */
  function Trim(s: string): (r: string)
    ensures Lead(s) + |r| <= |s| && r == s[Lead(s)..Lead(s) + |r|]
    ensures r == [] || (!JsSpace(r[0]) && !JsSpace(r[|r| - 1]))
    ensures AllJsSpace(s[..Lead(s)]) && AllJsSpace(s[Lead(s) + |r|..])
  {
    var l := TrimStart(s);
    var r := TrimEnd(l);
    TrimStartSpace(s);
    TrimEndSpace(l);
    assert s[Lead(s) + |r|..] == l[|r|..];
    r
  }

  lemma {:induction false} TrimStartPadded(pad: string, core: string)
    requires AllJsSpace(pad)
    requires core == [] || !JsSpace(core[0])
    ensures TrimStart(pad + core) == core
  {
    if pad != [] {
      assert (pad + core)[1..] == pad[1..] + core;
      TrimStartPadded(pad[1..], core);
    }
  }

  lemma {:induction false} TrimEndPadded(core: string, pad: string)
    requires AllJsSpace(pad)
    requires core == [] || !JsSpace(core[|core| - 1])
    ensures TrimEnd(core + pad) == core
  {
    if pad != [] {
      var s := core + pad;
      assert s[..|s| - 1] == core + pad[..|pad| - 1];
      TrimEndPadded(core, pad[..|pad| - 1]);
    } else {
      assert core + pad == core;
    }
  }

  /** `trim()` removes the whitespace around a word and nothing else. */
  lemma TrimPadded(pre: string, core: string, post: string)
    requires AllJsSpace(pre) && AllJsSpace(post)
    requires core == [] || (!JsSpace(core[0]) && !JsSpace(core[|core| - 1]))
    ensures Trim(pre + core + post) == core
  {
    if core == [] {
      assert pre + core + post == pre + post;
      TrimStartPadded(pre + post, []);
      assert pre + post + [] == pre + post;
      TrimEndPadded([], []);
    } else {
      assert pre + core + post == pre + (core + post);
      TrimStartPadded(pre, core + post);
      TrimEndPadded(core, post);
    }
  }

  /** `s.length`: the number of UTF-16 code units, two for a character beyond U+FFFF. */
  function Utf16Length(s: string): (n: nat)
    ensures |s| <= n <= 2 * |s|
  {
    if s == [] then 0
    else Utf16Length(s[..|s| - 1]) + (if s[|s| - 1] as int > 0xFFFF then 2 else 1)
  }

  // ------------------------------------------------------------ validators

  predicate NoSpaceNoAt(s: string) {
    forall i :: 0 <= i < |s| ==> !JsSpace(s[i]) && s[i] != '@'
  }

  /** `/^[^\s@]+@[^\s@]+\.[^\s@]+$/` matches `t`: three non-empty runs of characters that are
      neither whitespace nor `@`, joined by an `@` and then a `.`. */
  ghost predicate EmailRegex(t: string) {
    exists at, dot :: 0 < at && at + 1 < dot < |t| - 1 && t[at] == '@' && t[dot] == '.'
                      && NoSpaceNoAt(t[..at]) && NoSpaceNoAt(t[at + 1..dot]) && NoSpaceNoAt(t[dot + 1..])
  }

  /** The check `isValidEmail` makes on the trimmed string: no whitespace, exactly one `@` with
      something before it, and a `.` strictly inside the part after it. */
  predicate EmailShape(t: string) {
    && (forall i :: 0 <= i < |t| ==> !JsSpace(t[i]))
    && match Validation.FirstIndex(t, '@')
       case None => false
       case Some(at) =>
         var rest := t[at + 1..];
         && 0 < at && 3 <= |rest|
         && Validation.FirstIndex(rest, '@').None?
         && Validation.FirstIndex(rest[1..|rest| - 1], '.').Some?
  }

  /** `isValidEmail(email)` for a string: non-empty, and of that shape once trimmed. */
  predicate IsValidEmail(email: string) {
    email != [] && EmailShape(Trim(email))
  }

  lemma EmailShapeSound(t: string)
    requires EmailShape(t)
    ensures EmailRegex(t)
  {
    var at := Validation.FirstIndex(t, '@').value;
    var rest := t[at + 1..];
    var d := Validation.FirstIndex(rest[1..|rest| - 1], '.').value + 1;
    var dot := at + 1 + d;
    assert t[dot] == rest[d] == '.';
    forall i | 0 <= i < |t| && i != at ensures !JsSpace(t[i]) && t[i] != '@' {
      if i > at {
        assert t[i] == rest[i - at - 1];
      }
    }
    assert NoSpaceNoAt(t[..at]) by {
      forall i | 0 <= i < at ensures t[..at][i] == t[i] {}
    }
    assert NoSpaceNoAt(t[at + 1..dot]) by {
      forall j | at + 1 <= j < dot ensures t[at + 1..dot][j - at - 1] == t[j] {}
    }
    assert NoSpaceNoAt(t[dot + 1..]) by {
      forall j | dot + 1 <= j < |t| ensures t[dot + 1..][j - dot - 1] == t[j] {}
    }
  }

  lemma EmailShapeComplete(t: string, at: nat, dot: nat)
    requires 0 < at && at + 1 < dot < |t| - 1 && t[at] == '@' && t[dot] == '.'
    requires NoSpaceNoAt(t[..at]) && NoSpaceNoAt(t[at + 1..dot]) && NoSpaceNoAt(t[dot + 1..])
    ensures EmailShape(t)
  {
    forall i | 0 <= i < |t| ensures !JsSpace(t[i]) && (i != at ==> t[i] != '@') {
      if i < at {
        assert t[i] == t[..at][i];
      } else if at < i < dot {
        assert t[i] == t[at + 1..dot][i - at - 1];
      } else if dot < i {
        assert t[i] == t[dot + 1..][i - dot - 1];
      }
    }
    var first := Validation.FirstIndex(t, '@');
    assert first == Some(at);
    var rest := t[at + 1..];
    assert Validation.FirstIndex(rest, '@').None?;
    var inner := rest[1..|rest| - 1];
    assert inner[dot - at - 2] == '.';
  }

  /** The shape check decides the regular expression: `isValidEmail` holds exactly for a
      non-empty string whose trimmed form the pattern matches. */
  lemma IsValidEmailIff(email: string)
    ensures IsValidEmail(email) <==> email != [] && EmailRegex(Trim(email))
  {
    var t := Trim(email);
    if EmailShape(t) {
      EmailShapeSound(t);
    }
    if EmailRegex(t) {
      var at, dot :| 0 < at && at + 1 < dot < |t| - 1 && t[at] == '@' && t[dot] == '.'
                     && NoSpaceNoAt(t[..at]) && NoSpaceNoAt(t[at + 1..dot]) && NoSpaceNoAt(t[dot + 1..]);
      EmailShapeComplete(t, at, dot);
    }
  }

  /** The characters the server's pattern allows are neither whitespace nor `@`. */
  lemma ServerCharsPlain(s: string)
    requires forall i :: 0 <= i < |s| ==> Validation.LocalChar(s[i])
    ensures NoSpaceNoAt(s)
  {
    forall i | 0 <= i < |s| ensures !JsSpace(s[i]) && s[i] != '@' {
      var c := s[i];
      assert Validation.LocalChar(c);
      assert c as int < 128;
    }
  }

  /** A string of the server's email form has the client's shape and no whitespace to trim. */
  lemma ServerPartsHaveShape(e: string, at: nat, dot: nat)
    requires 0 <= at < dot < |e| && e[at] == '@' && e[dot] == '.'
    requires Validation.LocalPart(e[..at]) && Validation.DomainPart(e[at + 1..dot]) && Validation.TopLevel(e[dot + 1..])
    ensures Trim(e) == e && EmailShape(e)
  {
    ServerCharsPlain(e[..at]);
    ServerCharsPlain(e[at + 1..dot]);
    ServerCharsPlain(e[dot + 1..]);
    assert e[0] == e[..at][0];
    assert e[|e| - 1] == e[dot + 1..][|e| - dot - 2];
    assert !JsSpace(e[0]) && !JsSpace(e[|e| - 1]);
    assert e == [] + e + [];
    TrimPadded([], e, []);
    EmailShapeComplete(e, at, dot);
  }

  /** Every address of the server's email form passes the client's check as it stands: the
      server's pattern is the stricter of the two. */
  lemma ServerEmailPassesClient(email: string)
    requires Validation.EmailPattern(email)
    ensures IsValidEmail(email)
  {
    var at, dot :| 0 <= at < dot < |email| && email[at] == '@' && email[dot] == '.'
                   && Validation.LocalPart(email[..at]) && Validation.DomainPart(email[at + 1..dot])
                   && Validation.TopLevel(email[dot + 1..]);
    ServerPartsHaveShape(email, at, dot);
  }

  /** `validatePassword`: at least 8 UTF-16 code units; nothing else is checked. */
  predicate ValidatePassword(password: string) {
    Utf16Length(password) >= 8
  }

  /** Every password the server accepts passes the client's check. */
  lemma ServerPasswordPassesClient(password: string)
    requires Validation.ValidatePassword(JStr(password)).None?
    ensures ValidatePassword(password)
  {
  }

  /** The converse fails: eight lower-case letters pass the client and are refused by the server
      for want of a digit. */
  lemma ClientPasswordWeaker()
    ensures ValidatePassword("abcdefgh")
    ensures Validation.ValidatePassword(JStr("abcdefgh")) == Some(Validation.PasswordNoDigit)
  {
    var p := "abcdefgh";
    assert Utf16Length(p) == Utf16Length(p[..7]) + 1;
    assert !Validation.HasDigit(p) by {
      forall i | 0 <= i < |p| ensures !PyText.IsDigit(p[i]) {
      }
    }
  }

  /** `validateName`: at least 2 UTF-16 code units once trimmed. */
  predicate ValidateName(name: string) {
    Utf16Length(Trim(name)) >= 2
  }

  lemma AllJsSpaceConcat(a: string, b: string)
    requires AllJsSpace(a) && AllJsSpace(b)
    ensures AllJsSpace(a + b)
  {
    forall i | 0 <= i < |a + b| ensures JsSpace((a + b)[i]) {
      if i >= |a| {
        assert (a + b)[i] == b[i - |a|];
      }
    }
  }

  lemma Regroup(pre: string, a: string, b: string, c: string, post: string)
    ensures pre + (a + b + c) + post == (pre + a) + b + (c + post)
  {
  }

  /** A string is its leading whitespace, its trimmed form and its trailing whitespace. */
  lemma TrimSplits(s: string)
    ensures s == s[..Lead(s)] + Trim(s) + s[Lead(s) + |Trim(s)|..]
    ensures AllJsSpace(s[..Lead(s)]) && AllJsSpace(s[Lead(s) + |Trim(s)|..])
  {
    var i := Lead(s);
    var j := i + |Trim(s)|;
    assert s == s[..i] + s[i..j] + s[j..];
  }

  /** Whitespace added around a string is trimmed away with the rest. */
  lemma TrimIgnoresPadding(pre: string, name: string, post: string)
    requires AllJsSpace(pre) && AllJsSpace(post)
    ensures Trim(pre + name + post) == Trim(name)
  {
    var core := Trim(name);
    var lead, trail := name[..Lead(name)], name[Lead(name) + |core|..];
    TrimSplits(name);
    AllJsSpaceConcat(pre, lead);
    AllJsSpaceConcat(trail, post);
    Regroup(pre, lead, core, trail, post);
    TrimPadded(pre + lead, core, trail + post);
  }

  /** Whitespace around a name never changes the verdict. */
  lemma ValidateNamePadding(pre: string, name: string, post: string)
    requires AllJsSpace(pre) && AllJsSpace(post)
    ensures ValidateName(pre + name + post) == ValidateName(name)
  {
    TrimIgnoresPadding(pre, name, post);
  }

  // ------------------------------------------------------------- initials

  /** `s.split(' ')`: the pieces between single spaces, empty ones included. */
  function SplitSpace(s: string): (parts: seq<string>)
    ensures |parts| >= 1
    ensures forall k :: 0 <= k < |parts| ==> ' ' !in parts[k]
    ensures JoinSpace(parts) == s
    ensures s != [] && s[0] != ' ' ==> parts[0] != []
    decreases |s|
  {
    match Validation.FirstIndex(s, ' ')
    case None => [s]
    case Some(i) =>
      assert s == s[..i] + " " + s[i + 1..];
      [s[..i]] + SplitSpace(s[i + 1..])
  }

  /** `parts.join(' ')`. */
  function JoinSpace(parts: seq<string>): string
    requires |parts| >= 1
  {
    if |parts| == 1 then parts[0] else parts[0] + " " + JoinSpace(parts[1..])
  }

  /** Splitting on spaces undoes joining pieces that hold none. */
  lemma {:induction false} SplitJoin(parts: seq<string>)
    requires |parts| >= 1 && forall k :: 0 <= k < |parts| ==> ' ' !in parts[k]
    ensures SplitSpace(JoinSpace(parts)) == parts
  {
    var s := JoinSpace(parts);
    if |parts| == 1 {
      assert Validation.FirstIndex(s, ' ').None?;
    } else {
      var tail := JoinSpace(parts[1..]);
      assert s == parts[0] + " " + tail;
      FirstSpaceAfter(parts[0], tail);
      SplitSpaceAt(s, |parts[0]|);
      SplitJoin(parts[1..]);
      assert parts == [parts[0]] + parts[1..];
    }
  }

  /** Splitting at the first space: the piece before it, then the pieces of the rest. */
  lemma SplitSpaceAt(s: string, i: nat)
    requires Validation.FirstIndex(s, ' ') == Some(i)
    ensures SplitSpace(s) == [s[..i]] + SplitSpace(s[i + 1..])
  {
  }

  /** The first space of `p + " " + tail`, when `p` has none, is the one after `p`. */
  lemma FirstSpaceAfter(p: string, tail: string)
    requires ' ' !in p
    ensures var s := p + " " + tail;
            Validation.FirstIndex(s, ' ') == Some(|p|) && s[..|p|] == p && s[|p| + 1..] == tail
  {
    var s := p + " " + tail;
    var i := |p|;
    assert s[i] == ' ';
    forall j | 0 <= j < i ensures s[j] != ' ' {
      assert s[j] == p[j];
    }
    var f := Validation.FirstIndex(s, ' ');
    assert f.Some? && f.value <= i;
    assert s[..i] == p;
    assert s[i + 1..] == tail;
  }

  /** `toUpperCase()` on one character: the ASCII, Latin-1 (with `µ` to Greek `Μ`) and Cyrillic
      (U+0400 to U+04FF) small letters whose capital is one character; every other character
      is left as it is. */
  function UpperChar(c: char): char {
    if 'a' <= c <= 'z' then (c as int - 32) as char
    else if ('\U{E0}' <= c <= '\U{FE}') && c != '\U{F7}' then (c as int - 32) as char
    else if c == '\U{FF}' then '\U{178}'
    else if '\U{430}' <= c <= '\U{44F}' then (c as int - 32) as char
    else if '\U{450}' <= c <= '\U{45F}' then (c as int - 80) as char
    else if c == '\U{B5}' then '\U{39C}'
    else if ('\U{461}' <= c <= '\U{481}' || '\U{48B}' <= c <= '\U{4BF}' || '\U{4D1}' <= c <= '\U{4FF}')
            && c as int % 2 == 1 then (c as int - 1) as char
    else if '\U{4C2}' <= c <= '\U{4CE}' && c as int % 2 == 0 then (c as int - 1) as char
    else if c == '\U{4CF}' then '\U{4C0}'
    else c
  }

  function Upper(s: string): (r: string)
    ensures |r| == |s| && forall i :: 0 <= i < |s| ==> r[i] == UpperChar(s[i])
  {
    seq(|s|, i requires 0 <= i < |s| => UpperChar(s[i]))
  }

  /** `str[0]` inside a string concatenation: the first character, or the text `undefined` when
      the string is empty. */
  function FirstOrUndefined(s: string): string {
    if s == [] then "undefined" else [s[0]]
  }

  /** `name.substring(0, 2)`. */
  function Prefix2(name: string): (r: string)
    ensures |r| <= 2 && |r| <= |name| && r == name[..|r|]
  {
    if |name| <= 2 then name else name[..2]
  }

  /** `getInitials(name)`, as written: `U` for an empty name; with two or more space-separated
      pieces, the first characters of the first two, upper-cased; otherwise the first two
      characters of the untrimmed name, upper-cased. */
  function GetInitials(name: string): (r: string)
    ensures name == [] ==> r == "U"
  {
    if name == [] then "U"
    else
      var parts := SplitSpace(Trim(name));
      if |parts| >= 2 then Upper([parts[0][0]] + FirstOrUndefined(parts[1]))
      else Upper(Prefix2(name))
  }

  /** What `getInitials` gives: for a single word, the first two characters of the name as given,
      upper-cased; for two words or more, the first character of the trimmed name, then the
      character after its first space, or `UNDEFINED` when that is a second space. */
  lemma InitialsOfName(name: string)
    requires name != []
    ensures ' ' !in Trim(name) ==> GetInitials(name) == Upper(Prefix2(name))
    ensures ' ' in Trim(name) ==>
              var t := Trim(name);
              var i := Validation.FirstIndex(t, ' ').value;
              && i + 1 < |t|
              && GetInitials(name) == if t[i + 1] == ' ' then [UpperChar(t[0])] + "UNDEFINED"
                                      else [UpperChar(t[0]), UpperChar(t[i + 1])]
  {
    var t := Trim(name);
    SplitPieces(t);
    if ' ' in t {
      var i := Validation.FirstIndex(t, ' ').value;
      TwoPieces(t);
      if t[i + 1] == ' ' {
        UpperUndefined(t[0]);
      } else {
        UpperPair(t[0], t[i + 1]);
      }
    }
  }

  /** The characters `getInitials` takes from a trimmed name with a space in it. */
  lemma TwoPieces(t: string)
    requires t != [] && t[0] != ' ' && t[|t| - 1] != ' ' && ' ' in t
    ensures var i := Validation.FirstIndex(t, ' ').value;
            var parts := SplitSpace(t);
            && i + 1 < |t| && |parts| >= 2
            && [parts[0][0]] + FirstOrUndefined(parts[1])
               == if t[i + 1] == ' ' then [t[0]] + "undefined" else [t[0], t[i + 1]]
  {
    SplitPieces(t);
  }

  lemma UpperUndefined(a: char)
    ensures Upper([a] + "undefined") == [UpperChar(a)] + "UNDEFINED"
  {
  }

  lemma UpperPair(a: char, b: char)
    ensures Upper([a, b]) == [UpperChar(a), UpperChar(b)]
  {
  }

  /** How the trimmed name splits: one piece without a space; otherwise a first piece starting
      with the first character, and a second piece that is empty exactly when a second space
      follows the first, and otherwise starts with the character after it. */
  lemma SplitPieces(t: string)
    requires t == [] || (t[0] != ' ' && t[|t| - 1] != ' ')
    ensures ' ' !in t ==> SplitSpace(t) == [t]
    ensures ' ' in t ==>
              var i := Validation.FirstIndex(t, ' ').value;
              var parts := SplitSpace(t);
              && 0 < i && i + 1 < |t| && |parts| >= 2
              && parts[0] == t[..i] && parts[1..] == SplitSpace(t[i + 1..])
              && parts[0][0] == t[0]
              && (parts[1] == [] <==> t[i + 1] == ' ')
              && (t[i + 1] != ' ' ==> parts[1][0] == t[i + 1])
  {
    if ' ' in t {
      var i := Validation.FirstIndex(t, ' ').value;
      assert t[i] == ' ';
      SplitSpaceAt(t, i);
      SplitSpaceHead(t[i + 1..]);
    } else {
      assert Validation.FirstIndex(t, ' ').None?;
    }
  }

  /** The first piece of a non-empty string is empty exactly when it starts with a space, and
      otherwise starts with its first character. */
  lemma SplitSpaceHead(s: string)
    requires s != []
    ensures SplitSpace(s)[0] == [] <==> s[0] == ' '
    ensures s[0] != ' ' ==> SplitSpace(s)[0] != [] && SplitSpace(s)[0][0] == s[0]
  {
    match Validation.FirstIndex(s, ' ')
    case None =>
    case Some(i) =>
      SplitSpaceAt(s, i);
  }

  /** The pieces that are not empty. */
  function NonEmpty(parts: seq<string>): (r: seq<string>)
    ensures forall k :: 0 <= k < |r| ==> r[k] != []
    ensures (forall k :: 0 <= k < |parts| ==> parts[k] != []) ==> r == parts
    ensures |r| <= |parts|
  {
    if parts == [] then []
    else (if parts[0] == [] then [] else [parts[0]]) + NonEmpty(parts[1..])
  }

  /** `getInitials` with the empty pieces between repeated spaces skipped. */
  function GetInitialsFixed(name: string): (r: string)
    ensures |r| <= 2
    ensures name == [] ==> r == "U"
  {
    if name == [] then "U"
    else
      var words := NonEmpty(SplitSpace(Trim(name)));
      if |words| >= 2 then Upper([words[0][0], words[1][0]])
      else Upper(Prefix2(name))
  }

  /** What the corrected `getInitials` gives: for a single word, as before; for two words or more,
      the first characters of the first two words, however many spaces separate them. */
  lemma InitialsOfNameFixed(name: string)
    requires name != []
    ensures ' ' !in Trim(name) ==> GetInitialsFixed(name) == Upper(Prefix2(name))
    ensures ' ' in Trim(name) ==>
              var t := Trim(name);
              var i := Validation.FirstIndex(t, ' ').value;
              var j := i + 1 + LeadingSpaces(t[i + 1..]);
              && i + 1 < |t| && j < |t| && t[j] != ' ' && (forall k :: i <= k < j ==> t[k] == ' ')
              && GetInitialsFixed(name) == [UpperChar(t[0]), UpperChar(t[j])]
  {
    var t := Trim(name);
    if ' ' in t {
      var i := Validation.FirstIndex(t, ' ').value;
      var j := i + 1 + LeadingSpaces(t[i + 1..]);
      var words := NonEmpty(SplitSpace(t));
      SpacesAfter(t, i);
      TwoWords(t, i);
      assert GetInitialsFixed(name) == Upper([words[0][0], words[1][0]]);
      UpperPair(t[0], t[j]);
    } else {
      SplitPieces(t);
      assert NonEmpty(SplitSpace(t)) == NonEmpty([t]);
    }
  }

  /** The first characters of the first two words of a trimmed name with a space in it. */
  lemma TwoWords(t: string, i: nat)
    requires Validation.FirstIndex(t, ' ') == Some(i) && t[0] != ' ' && t[|t| - 1] != ' '
    ensures i + 1 < |t| && i + 1 + LeadingSpaces(t[i + 1..]) < |t|
    ensures var words := NonEmpty(SplitSpace(t));
            && |words| >= 2 && words[0][0] == t[0] && words[1][0] == t[i + 1 + LeadingSpaces(t[i + 1..])]
  {
    var rest := t[i + 1..];
    assert rest[|rest| - 1] == t[|t| - 1];
    FirstWord(rest);
    SplitSpaceAt(t, i);
    NonEmptyCons(t[..i], SplitSpace(rest));
    assert rest[LeadingSpaces(rest)] == t[i + 1 + LeadingSpaces(rest)];
  }

  lemma NonEmptyCons(p: string, ps: seq<string>)
    requires p != []
    ensures NonEmpty([p] + ps) == [p] + NonEmpty(ps)
  {
    assert ([p] + ps)[1..] == ps;
  }

  /** After a space, in a string that does not end in one, the next non-space character is the
      one past the leading spaces of the rest. */
  lemma SpacesAfter(t: string, i: nat)
    requires i < |t| && t[i] == ' ' && t[|t| - 1] != ' '
    ensures var j := i + 1 + LeadingSpaces(t[i + 1..]);
            && i + 1 < |t| && j < |t| && t[j] != ' ' && (forall k :: i <= k < j ==> t[k] == ' ')
  {
    var rest := t[i + 1..];
    var j := i + 1 + LeadingSpaces(rest);
    assert rest[|rest| - 1] == t[|t| - 1];
    assert LeadingSpaces(rest) < |rest|;
    assert t[j] == rest[LeadingSpaces(rest)];
    forall k | i < k < j
      ensures t[k] == ' '
    {
      assert t[k] == rest[k - i - 1];
    }
  }

  /** The number of spaces `s` starts with. */
  function LeadingSpaces(s: string): (j: nat)
    ensures j <= |s| && (forall k :: 0 <= k < j ==> s[k] == ' ') && (j < |s| ==> s[j] != ' ')
  {
    if s == [] || s[0] != ' ' then 0 else 1 + LeadingSpaces(s[1..])
  }

  /** The first word of a string that does not end in a space starts after its leading spaces. */
  lemma {:induction false} FirstWord(s: string)
    requires s != [] && s[|s| - 1] != ' '
    ensures LeadingSpaces(s) < |s|
    ensures NonEmpty(SplitSpace(s)) != [] && NonEmpty(SplitSpace(s))[0][0] == s[LeadingSpaces(s)]
  {
    SplitSpaceHead(s);
    if s[0] == ' ' {
      SplitSpaceAt(s, 0);
      var parts := SplitSpace(s);
      assert parts[0] == [] && parts[1..] == SplitSpace(s[1..]);
      FirstWord(s[1..]);
      assert NonEmpty(parts) == NonEmpty(SplitSpace(s[1..]));
    }
  }

  /** Where no two spaces are adjacent the fix changes nothing, and then the initials of a name
      of two or more words are two characters long. */
  lemma GetInitialsFixedAgrees(name: string)
    requires forall k :: 0 <= k < |SplitSpace(Trim(name))| ==> SplitSpace(Trim(name))[k] != []
    ensures GetInitialsFixed(name) == GetInitials(name)
    ensures |GetInitials(name)| <= 2
  {
  }

  lemma DoubleSpacePieces(name: string)
    requires name == "a  b"
    ensures Trim(name) == name && SplitSpace(name) == ["a", "", "b"]
  {
    assert name == [] + name + [];
    TrimPadded([], name, []);
    assert JoinSpace(["b"]) == "b";
    assert JoinSpace(["", "b"]) == " b";
    assert JoinSpace(["a", "", "b"]) == name;
    SplitJoin(["a", "", "b"]);
  }

  /** Two spaces between the words yield an empty piece, and its missing first character is
      spelled out: "a  b" gets the initials "AUNDEFINED"; the fix gives "AB". */
  lemma GetInitialsDoubleSpace(name: string)
    requires name == "a  b"
    ensures GetInitials(name) == "AUNDEFINED"
    ensures GetInitialsFixed(name) == "AB"
  {
    DoubleSpacePieces(name);
    var parts := ["a", "", "b"];
    assert parts[1..] == ["", "b"] && parts[1..][1..] == ["b"] && parts[1..][1..][1..] == [];
    assert NonEmpty(parts) == ["a", "b"];
    assert Upper("aundefined") == "AUNDEFINED";
  }

  // ---------------------------------------------------------------- scores

  /** `calculateScorePercentage(score, maxScore)`: 0 when `maxScore` is missing or 0, otherwise
      `Math.round(score / maxScore * 100)`. */
  function CalculateScorePercentage(score: real, maxScore: Option<real>): (n: int)
    ensures maxScore.None? || maxScore == Some(0.0) ==> n == 0
  {
    if maxScore.None? || maxScore.value == 0.0 then 0
    else Numeric.JsRound(score / maxScore.value * 100.0)
  }

  /** Between nothing and full marks the percentage lies in 0..100, with 100 for full marks and
      0 for none. */
  lemma PercentageBounds(score: real, maxScore: real)
    requires 0.0 <= score <= maxScore && maxScore > 0.0
    ensures 0 <= CalculateScorePercentage(score, Some(maxScore)) <= 100
    ensures score == maxScore ==> CalculateScorePercentage(score, Some(maxScore)) == 100
    ensures score == 0.0 ==> CalculateScorePercentage(score, Some(maxScore)) == 0
  {
    var x := score / maxScore * 100.0;
    assert x <= 100.0 by {
      assert score / maxScore <= 1.0;
    }
    if score == maxScore {
      assert x == 100.0;
    }
  }

  /** More points never give a lower percentage. */
  lemma PercentageMonotone(s1: real, s2: real, maxScore: real)
    requires s1 <= s2 && maxScore > 0.0
    ensures CalculateScorePercentage(s1, Some(maxScore)) <= CalculateScorePercentage(s2, Some(maxScore))
  {
    var x1, x2 := s1 / maxScore * 100.0, s2 / maxScore * 100.0;
    assert s1 / maxScore <= s2 / maxScore;
    assert x1 + 0.5 <= x2 + 0.5;
  }

  const Excellent: real := 80.0
  const Good: real := 60.0

  /** `getScoreGrade(percentage)`. */
  function GetScoreGrade(percentage: real): (g: string)
    ensures g == "excellent" <==> percentage >= Excellent
    ensures g == "good" <==> Good <= percentage < Excellent
    ensures g == "average" <==> percentage < Good
  {
    if percentage >= Excellent then "excellent"
    else if percentage >= Good then "good"
    else "average"
  }

  function GradeRank(g: string): nat {
    if g == "excellent" then 2 else if g == "good" then 1 else 0
  }

  /** A higher percentage never gets a lower grade. */
  lemma GradeMonotone(p: real, q: real)
    requires p <= q
    ensures GradeRank(GetScoreGrade(p)) <= GradeRank(GetScoreGrade(q))
  {
  }
}
