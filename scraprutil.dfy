/**
  The helpers of flickrScraprUtil.py: photo URLs, attribute lookup in the
  API's XML payload, metadata validation, backslash escaping of quotes, the
  dictionary-filtered tag string, the date stamp and the integer part of the
  image analysis.

  Oracles: `decode` stands for Python 2's `text.decode('utf-8', 'ignore')`,
  which yields None where Python raises UnicodeEncodeError; `isWord` stands
  for the `grep` lookup in the system word list.
 */
module ScraprUtil {
  import opened Wrappers
  import opened PyStr

  // ---------------------------------------------------------------------
  // unixTimeToMySQLTime: the date stamp
  // ---------------------------------------------------------------------

  /**
    The text of the date stamp built from the calendar date that
    `datetime.fromtimestamp` yields: the year, then month and day each
    padded to two digits, then a zero time of day.
   */
  method UnixTimeToMySQLTime(year: nat, month: nat, day: nat) returns (mysqlTime: string)
    requires 1 <= month <= 12 && 1 <= day <= 31
    ensures mysqlTime == MySQLStamp(year, month, day)
  {
    var y := NatToString(year);
    mysqlTime := y;
    var m := NatToString(month);
    ghost var pm := Padded(month);
    if |m| == 1 {
      mysqlTime := mysqlTime + "-0" + m;
      assert y + "-0" + m == y + "-" + ("0" + m);
    } else {
      mysqlTime := mysqlTime + "-" + m;
    }
    assert mysqlTime == y + "-" + pm;
    var d := NatToString(day);
    ghost var pd := Padded(day);
    if |d| == 1 {
      mysqlTime := mysqlTime + "-0" + d;
      assert y + "-" + pm + "-0" + d == y + "-" + pm + "-" + ("0" + d);
    } else {
      mysqlTime := mysqlTime + "-" + d;
    }
    assert mysqlTime == y + "-" + pm + "-" + pd;
    mysqlTime := mysqlTime + " 00:00:00";
    MySQLStampSpelled(year, month, day);
  }

  /** The calendar date `datetime.fromtimestamp` yields. */
  datatype Date = Date(year: nat, month: nat, day: nat)

  /** A date whose month and day are in their calendar ranges. */
  type CalendarDate = d: Date | 1 <= d.month <= 12 && 1 <= d.day <= 31 witness Date(1970, 1, 1)

  /**
    The stamp `unixTimeToMySQLTime` returns for a date: year, padded month
    and padded day joined by '-', then a zero time of day.
   */
  function MySQLStamp(year: nat, month: nat, day: nat): string
    requires 1 <= month <= 12 && 1 <= day <= 31
  {
    Join([NatToString(year), Padded(month), Padded(day)], '-') + " 00:00:00"
  }

  /** The stamp is the three fields with '-' between them, then " 00:00:00". */
  lemma MySQLStampSpelled(year: nat, month: nat, day: nat)
    requires 1 <= month <= 12 && 1 <= day <= 31
    ensures MySQLStamp(year, month, day) == NatToString(year) + "-" + Padded(month) + "-" + Padded(day) + " 00:00:00"
  {
    var y, pm, pd := NatToString(year), Padded(month), Padded(day);
    assert [y, pm, pd][..2] == [y, pm] && [y, pm][..1] == [y];
    assert Join([y, pm], '-') == y + "-" + pm;
    assert Join([y, pm, pd], '-') == y + "-" + pm + "-" + pd;
  }

  /** The stamp spells the year, then month and day as two digits each that read back as them. */
  lemma MySQLStampIsStamp(year: nat, month: nat, day: nat)
    requires 1 <= month <= 12 && 1 <= day <= 31
    ensures IsStamp(MySQLStamp(year, month, day), year, month, day)
  {
    MySQLStampSpelled(year, month, day);
    StampFields(NatToString(year), Padded(month), Padded(day), month, day);
  }

  /**
    t is the stamp of the date: the year's digits, '-', two digits that
    read as the month, '-', two digits that read as the day, " 00:00:00".
   */
  predicate IsStamp(t: string, year: nat, month: nat, day: nat) {
    StampAt(t, NatToString(year), month, day)
  }

  /** `IsStamp` with the year already spelled as y. */
  predicate StampAt(t: string, y: string, month: nat, day: nat) {
    && |t| == |y| + 15
    && t[..|y|] == y
    && t[|y|] == '-' && t[|y| + 3] == '-'
    && AllDigits(t[|y| + 1..|y| + 3]) && DecimalValue(t[|y| + 1..|y| + 3]) == month
    && AllDigits(t[|y| + 4..|y| + 6]) && DecimalValue(t[|y| + 4..|y| + 6]) == day
    && t[|y| + 6..] == " 00:00:00"
  }

  /** The fields of a stamp built from two-digit spellings of month and day read back as them. */
  lemma StampFields(y: string, pm: string, pd: string, month: nat, day: nat)
    requires |pm| == 2 && AllDigits(pm) && DecimalValue(pm) == month
    requires |pd| == 2 && AllDigits(pd) && DecimalValue(pd) == day
    ensures StampAt(y + "-" + pm + "-" + pd + " 00:00:00", y, month, day)
  {
    var t := y + "-" + pm + "-" + pd + " 00:00:00";
    var n := |y|;
    StampLayout(y, pm, pd);
    var ms, ds := t[n + 1..n + 3], t[n + 4..n + 6];
    assert ms == pm && ds == pd;
  }

  /**
    In the stamp `y-MM-DD 00:00:00` with two-character month and day, the
    fields sit at fixed offsets after the year.
   */
  lemma StampLayout(y: string, pm: string, pd: string)
    requires |pm| == 2 && |pd| == 2
    ensures var t := y + "-" + pm + "-" + pd + " 00:00:00"; var n := |y|;
      && |t| == n + 15 && t[..n] == y && t[n] == '-' && t[n + 3] == '-'
      && t[n + 1..n + 3] == pm && t[n + 4..n + 6] == pd && t[n + 6..] == " 00:00:00"
  {
  }

  /** A number below 100 spelled with a leading '0' when it has one digit: two digits that read back as the number. */
  function Padded(n: nat): (p: string)
    requires n < 100
    ensures |p| == 2 && AllDigits(p) && DecimalValue(p) == n
  {
    var s := NatToString(n);
    NatToStringLength(n);
    DecimalValueOfNatToString(n);
    if |s| == 1 then
      assert ("0" + s)[..1] == "0" && ("0" + s)[..1][..0] == [];
      "0" + s
    else s
  }

  // ---------------------------------------------------------------------
  // makeQuotesSafeForSQL: backslash before every quote character
  // ---------------------------------------------------------------------

  const Backslash: char := '\\'

  /** The default `quoteChar` argument: double and single quote. */
  const DefaultQuoteChars: string := "\"'"

  /** The escaped text: each quote character preceded by a backslash. */
  function Escaped(s: string, quoteChars: string): string {
    if |s| == 0 then ""
    else (if s[0] in quoteChars then [Backslash, s[0]] else [s[0]]) + Escaped(s[1..], quoteChars)
  }

  function CountQuotes(s: string, quoteChars: string): nat {
    if |s| == 0 then 0 else (if s[0] in quoteChars then 1 else 0) + CountQuotes(s[1..], quoteChars)
  }

  /**
    Reverse of the escaping: a backslash followed by a quote character stands
    for that quote character; everything else stands for itself.
   */
  function Unescape(t: string, quoteChars: string): string {
    if |t| == 0 then ""
    else if |t| >= 2 && t[0] == Backslash && t[1] in quoteChars then [t[1]] + Unescape(t[2..], quoteChars)
    else [t[0]] + Unescape(t[1..], quoteChars)
  }

  lemma {:induction false} EscapedConcat(a: string, b: string, quoteChars: string)
    ensures Escaped(a + b, quoteChars) == Escaped(a, quoteChars) + Escaped(b, quoteChars)
  {
    if |a| == 0 {
      assert a + b == b;
    } else {
      assert (a + b)[1..] == a[1..] + b;
      EscapedConcat(a[1..], b, quoteChars);
    }
  }

  /** `makeQuotesSafeForSQL`: builds the escaped text one character at a time. */
  method MakeQuotesSafeForSQL(s: string, quoteChars: string) returns (safeStr: string)
    ensures safeStr == Escaped(s, quoteChars)
  {
    safeStr := "";
    for i := 0 to |s|
      invariant safeStr == Escaped(s[..i], quoteChars)
    {
      var c := s[i];
      if c in quoteChars {
        safeStr := safeStr + [Backslash];
      }
      safeStr := safeStr + [c];
      assert s[..i + 1] == s[..i] + [c];
      EscapedConcat(s[..i], [c], quoteChars);
    }
    assert s[..|s|] == s;
  }

  /** The output is the input plus one character per quote. */
  lemma {:induction false} EscapedLength(s: string, quoteChars: string)
    ensures |Escaped(s, quoteChars)| == |s| + CountQuotes(s, quoteChars)
  {
    if |s| > 0 {
      EscapedLength(s[1..], quoteChars);
    }
  }

  /** A string with a quote character has a positive quote count. */
  lemma {:induction false} CountQuotesPositive(s: string, quoteChars: string, i: int)
    requires 0 <= i < |s| && s[i] in quoteChars
    ensures CountQuotes(s, quoteChars) > 0
  {
    if i > 0 {
      CountQuotesPositive(s[1..], quoteChars, i - 1);
    }
  }

  /** Characters that are not quotes pass through unchanged. */
  lemma {:induction false} EscapedWithoutQuotes(s: string, quoteChars: string)
    requires forall i :: 0 <= i < |s| ==> s[i] !in quoteChars
    ensures Escaped(s, quoteChars) == s
  {
    if |s| > 0 {
      EscapedWithoutQuotes(s[1..], quoteChars);
      assert [s[0]] + s[1..] == s;
    }
  }

  /** Removing the backslash in front of each escaped quote restores the input. */
  lemma {:induction false} UnescapeEscaped(s: string, quoteChars: string)
    ensures Unescape(Escaped(s, quoteChars), quoteChars) == s
  {
    if |s| > 0 {
      var rest := Escaped(s[1..], quoteChars);
      UnescapeEscaped(s[1..], quoteChars);
      if s[0] in quoteChars {
        var t := [Backslash, s[0]] + rest;
        assert t[2..] == rest;
      } else {
        var t := [s[0]] + rest;
        assert t[1..] == rest;
        if |t| >= 2 && t[0] == Backslash {
          // s[0] is a backslash that is not a quote character, so the
          // character after it is either an inserted backslash or a non-quote
          assert Backslash !in quoteChars;
          assert t[1] !in quoteChars by {
            if s[1] in quoteChars {
              assert t[1] == Backslash;
            } else {
              assert t[1] == s[1];
            }
          }
        }
      }
      assert [s[0]] + s[1..] == s;
    }
  }

  lemma EscapedStartsWithNonQuote(s: string, quoteChars: string)
    requires Backslash !in quoteChars
    ensures |Escaped(s, quoteChars)| > 0 ==> Escaped(s, quoteChars)[0] !in quoteChars
  {
  }

  /** When the backslash is not itself a quote character, every quote in the output is escaped. */
  lemma {:induction false} EscapedQuotesArePrefixed(s: string, quoteChars: string)
    requires Backslash !in quoteChars
    ensures var t := Escaped(s, quoteChars);
      forall i :: 0 <= i < |t| && t[i] in quoteChars ==> i > 0 && t[i - 1] == Backslash
  {
    if |s| > 0 {
      EscapedQuotesArePrefixed(s[1..], quoteChars);
      var rest := Escaped(s[1..], quoteChars);
      var head := if s[0] in quoteChars then [Backslash, s[0]] else [s[0]];
      var t := head + rest;
      EscapedStartsWithNonQuote(s[1..], quoteChars);
      forall i | 0 <= i < |t| && t[i] in quoteChars ensures i > 0 && t[i - 1] == Backslash {
        if i > |head| {
          var k := i - |head|;
          assert t[i] == rest[k];
          assert t[i - 1] == rest[k - 1];
        }
      }
    }
  }

  // ---------------------------------------------------------------------
  // getPhotoURL
  // ---------------------------------------------------------------------

  /** The default `size` argument: the 75x75 square rendition. */
  const DefaultSize: string := "s"

  /** `getPhotoURL`: the static-farm URL of one rendition of a photo. */
  function GetPhotoURL(farm: string, server: string, id: string, secret: string, size: string): string {
    "http://farm" + farm + ".static.flickr.com/" + server + "/" + id + "_" + secret + "_" + size + ".jpg"
  }

  /** The file name a photo URL ends in. */
  function PhotoFileName(id: string, secret: string, size: string): string {
    id + "_" + secret + "_" + size + ".jpg"
  }

  /**
    With '/'-free parts, the URL's '/'-separated segments are the scheme, an
    empty segment, the farm host, the server and the file name.
   */
  lemma PhotoURLSegments(farm: string, server: string, id: string, secret: string, size: string)
    requires '/' !in farm && '/' !in server && '/' !in id && '/' !in secret && '/' !in size
    ensures Split(GetPhotoURL(farm, server, id, secret, size), '/')
      == ["http:", "", "farm" + farm + ".static.flickr.com", server, PhotoFileName(id, secret, size)]
  {
    var host := "farm" + farm + ".static.flickr.com";
    var file := PhotoFileName(id, secret, size);
    var p0 := "http:" + ['/'];
    var p1 := p0 + ['/'] + host;
    var p2 := p1 + ['/'] + server;
    PhotoURLLayout(farm, server, id, secret, size);
    assert '/' !in host && '/' !in file;
    SplitWithoutSeparator("http:", '/');
    SplitWithoutSeparator("", '/');
    SplitWithoutSeparator(host, '/');
    SplitWithoutSeparator(server, '/');
    SplitWithoutSeparator(file, '/');
    SplitAround("http:", "", '/');
    assert p0 == "http:" + ['/'] + "";
    assert Split(p0, '/') == ["http:", ""];
    SplitAround(p0, host, '/');
    assert Split(p1, '/') == ["http:", "", host];
    SplitAround(p1, server, '/');
    assert Split(p2, '/') == ["http:", "", host, server];
    SplitAround(p2, file, '/');
  }

  lemma PhotoURLLayout(farm: string, server: string, id: string, secret: string, size: string)
    ensures GetPhotoURL(farm, server, id, secret, size)
      == (("http:" + ['/']) + ['/'] + ("farm" + farm + ".static.flickr.com")) + ['/'] + server + ['/']
         + PhotoFileName(id, secret, size)
  {
    assert "http://farm" == "http:" + ['/'] + ['/'] + "farm";
    assert ".static.flickr.com/" == ".static.flickr.com" + ['/'];
  }

  // ---------------------------------------------------------------------
  // findAttrib, checkStr, getPhotoInfo
  // ---------------------------------------------------------------------

  /** An XML element of the API's answer: its attributes and its child elements in document order. */
  datatype Element = Element(attrib: map<string, string>, children: seq<Element>)

  /** The value of `key` on the first child, in order, that has it. */
  function FirstChildAttrib(children: seq<Element>, key: string): Option<string> {
    if |children| == 0 then None
    else if key in children[0].attrib then Some(children[0].attrib[key])
    else FirstChildAttrib(children[1..], key)
  }

  /** None exactly when no child has the key; otherwise the value on the first child that has it. */
  lemma {:induction false} FirstChildAttribFirst(children: seq<Element>, key: string)
    ensures var r := FirstChildAttrib(children, key);
      && (r.None? <==> forall i :: 0 <= i < |children| ==> key !in children[i].attrib)
      && (r.Some? ==> exists i :: (0 <= i < |children| && key in children[i].attrib
            && r.value == children[i].attrib[key]
            && forall j :: 0 <= j < i ==> key !in children[j].attrib))
  {
    if |children| > 0 && key !in children[0].attrib {
      var tail := children[1..];
      FirstChildAttribFirst(tail, key);
      var r := FirstChildAttrib(tail, key);
      if r.Some? {
        var i :| 0 <= i < |tail| && key in tail[i].attrib && r.value == tail[i].attrib[key]
          && forall j :: 0 <= j < i ==> key !in tail[j].attrib;
        assert children[i + 1] == tail[i];
        forall j | 0 <= j < i + 1 ensures key !in children[j].attrib {
          if j > 0 { assert children[j] == tail[j - 1]; }
        }
      } else {
        forall i | 0 <= i < |children| ensures key !in children[i].attrib {
          if i > 0 { assert children[i] == tail[i - 1]; }
        }
      }
    }
  }

  /**
    `findAttrib`: None for a missing or empty key; otherwise the photo's own
    attribute, else the info element's, else the first child's that has it.
   */
  function FindAttrib(photo: Element, info: Element, key: Option<string>): Option<string> {
    if key.None? || key.value == "" then None
    else if key.value in photo.attrib then Some(photo.attrib[key.value])
    else if key.value in info.attrib then Some(info.attrib[key.value])
    else FirstChildAttrib(info.children, key.value)
  }

  /** The lookup order of `findAttrib`: photo first, then info, then info's children in order. */
  lemma FindAttribPriority(photo: Element, info: Element, key: Option<string>)
    ensures var r := FindAttrib(photo, info, key);
      && (key.None? || key.value == "" ==> r.None?)
      && (key.Some? && key.value != "" && key.value in photo.attrib ==> r == Some(photo.attrib[key.value]))
      && ((key.Some? && key.value != "" && key.value !in photo.attrib && key.value in info.attrib)
            ==> r == Some(info.attrib[key.value]))
      && ((key.Some? && key.value != "" && key.value !in photo.attrib && key.value !in info.attrib)
            ==> r == FirstChildAttrib(info.children, key.value))
      && ((key.Some? && key.value != "" && key.value !in photo.attrib && key.value !in info.attrib)
            ==> (r.None? <==> forall i :: 0 <= i < |info.children| ==> key.value !in info.children[i].attrib))
  {
    if key.Some? {
      FirstChildAttribFirst(info.children, key.value);
    }
  }

  /**
    `checkStr`: (False, '') for None or text that does not decode, else
    (True, the decoded text).
   */
  function CheckStr(s: Option<string>, decode: string -> Option<string>): (r: (bool, string))
    ensures s.None? ==> r == (false, "")
    ensures r.0 <==> s.Some? && decode(s.value).Some?
    ensures r.0 ==> r.1 == decode(s.value).value
    ensures !r.0 ==> r.1 == ""
  {
    if s.None? then (false, "")
    else match decode(s.value)
      case Some(d) => (true, d)
      case None => (false, "")
  }

  /** `checkStr(findAttrib(photo, info, attr))`: the check of one requested attribute. */
  function Fetched(photo: Element, info: Element, attr: string, decode: string -> Option<string>): (bool, string) {
    CheckStr(FindAttrib(photo, info, Some(attr)), decode)
  }

  /** The default `attribsToRetreive` argument. */
  const DefaultAttribs: seq<string> := ["license", "username", "realname", "taken", "posted"]

  /**
    `getPhotoInfo`: all or nothing. None as soon as one requested attribute
    is missing or does not decode; otherwise a map whose keys are exactly the
    requested attributes, each holding its decoded value.
   */
  method GetPhotoInfo(photo: Element, info: Element, attribs: seq<string>, decode: string -> Option<string>)
    returns (photoInfo: Option<map<string, string>>)
    ensures photoInfo.Some? <==> forall i :: 0 <= i < |attribs| ==> Fetched(photo, info, attribs[i], decode).0
    ensures photoInfo.Some? ==> photoInfo.value.Keys == (set i | 0 <= i < |attribs| :: attribs[i])
    ensures photoInfo.Some? ==> forall i :: 0 <= i < |attribs| ==>
      photoInfo.value[attribs[i]] == Fetched(photo, info, attribs[i], decode).1
  {
    var fetch := attr => Fetched(photo, info, attr, decode);
    var collected: map<string, string> := map[];
    for k := 0 to |attribs|
      invariant Collected(attribs[..k], fetch) == Some(collected)
    {
      assert attribs[..k + 1][..k] == attribs[..k];
      var str := fetch(attribs[k]);
      if str.0 {
        collected := collected[attribs[k] := str.1];
      } else {
        return None;
      }
    }
    assert attribs[..|attribs|] == attribs;
    CollectedMeaning(attribs, fetch);
    photoInfo := Some(collected);
  }

  /**
    The map `getPhotoInfo` has built after the attributes `attribs`, each
    looked up and checked by `fetch`, or None once one failed.
   */
  function Collected(attribs: seq<string>, fetch: string -> (bool, string)): Option<map<string, string>> {
    if |attribs| == 0 then Some(map[])
    else
      match Collected(attribs[..|attribs| - 1], fetch)
      case None => None
      case Some(m) =>
        var str := fetch(attribs[|attribs| - 1]);
        if str.0 then Some(m[attribs[|attribs| - 1] := str.1]) else None
  }

  /** All or nothing: the collected map exists exactly when every attribute checks, and then holds each one's value. */
  lemma {:induction false} CollectedMeaning(attribs: seq<string>, fetch: string -> (bool, string))
    ensures var r := Collected(attribs, fetch);
      && (r.Some? <==> forall i :: 0 <= i < |attribs| ==> fetch(attribs[i]).0)
      && (r.Some? ==> r.value.Keys == (set i | 0 <= i < |attribs| :: attribs[i]))
      && (r.Some? ==> forall i :: 0 <= i < |attribs| ==> r.value[attribs[i]] == fetch(attribs[i]).1)
  {
    if |attribs| > 0 {
      var n := |attribs| - 1;
      var init := attribs[..n];
      CollectedMeaning(init, fetch);
      var r := Collected(attribs, fetch);
      var str := fetch(attribs[n]);
      assert forall i :: 0 <= i < n ==> init[i] == attribs[i];
      if r.Some? {
        var m := Collected(init, fetch).value;
        assert r.value == m[attribs[n] := str.1];
        assert (set i | 0 <= i < |attribs| :: attribs[i]) == (set i | 0 <= i < n :: init[i]) + {attribs[n]};
      }
    }
  }

  /**
    With the default attributes, a collected map holds every field the
    insert reads: licence, user name, real name, date taken and date posted.
   */
  lemma DefaultInfoHasInsertFields(fetch: string -> (bool, string))
    ensures var r := Collected(DefaultAttribs, fetch);
      r.Some? ==> && "license" in r.value && "username" in r.value && "realname" in r.value
                  && "taken" in r.value && "posted" in r.value
  {
    CollectedMeaning(DefaultAttribs, fetch);
    var keys := set i | 0 <= i < |DefaultAttribs| :: DefaultAttribs[i];
    assert DefaultAttribs[0] in keys && DefaultAttribs[1] in keys && DefaultAttribs[2] in keys;
    assert DefaultAttribs[3] in keys && DefaultAttribs[4] in keys;
  }

  // ---------------------------------------------------------------------
  // getPhotoTags
  // ---------------------------------------------------------------------

  /** The default `maxlen` argument. */
  const DefaultMaxLen: int := 300

  /**
    The one literal substring that the "punctuation strip" removes: Python's
    `replace` removes this whole 34-character run, not each of its characters.
   */
  const Punctuation: string := "\"'!@#$%^&*()-_+=[{]}|\\/?*+,<.>;:~`"

  /** A decoding oracle that never makes text longer. */
  ghost predicate DecodeNeverLengthens(decode: string -> Option<string>) {
    forall t :: decode(t).Some? ==> |decode(t).value| <= |t|
  }

  /** A word list none of whose words holds a comma. */
  ghost predicate WordsHaveNoComma(isWord: string -> bool) {
    forall w :: isWord(w) ==> ',' !in w
  }

  /** The decoded text of a tag, or '' when decoding raises. */
  function DecodeOrEmpty(text: string, decode: string -> Option<string>): string {
    match decode(text)
    case Some(d) => d
    case None => ""
  }

  /** The tag text lowered and with the punctuation run removed. */
  function CleanTag(text: string, decode: string -> Option<string>): string {
    RemoveAll(Lower(DecodeOrEmpty(text, decode)), Punctuation)
  }

  /**
    The punctuation strip removes only the whole 34-character run: a tag in
    which that run does not occur keeps every punctuation character and is
    only lower-cased.
   */
  lemma CleanTagKeepsScatteredPunctuation(text: string, decode: string -> Option<string>)
    requires !Occurs(Punctuation, Lower(DecodeOrEmpty(text, decode)))
    ensures CleanTag(text, decode) == Lower(DecodeOrEmpty(text, decode))
  {
    RemoveAllWithoutOccurrence(Lower(DecodeOrEmpty(text, decode)), Punctuation);
  }

  /** For instance the tag "Don't!" comes out as "don't!", apostrophe and exclamation mark kept. */
  lemma ApostropheSurvives()
    ensures RemoveAll(Lower("Don't!"), Punctuation) == "don't!"
  {
    var l := Lower("Don't!");
    assert l == "don't!" by {
      assert l[0] == LowerChar('D');
    }
  }

  /** The stubs, in order, that are non-empty dictionary words. */
  function KeepWords(stubs: seq<string>, isWord: string -> bool): (ws: seq<string>)
    ensures forall i :: 0 <= i < |ws| ==> |ws[i]| > 0 && isWord(ws[i])
  {
    if |stubs| == 0 then []
    else
      var stub := stubs[|stubs| - 1];
      KeepWords(stubs[..|stubs| - 1], isWord) + (if |stub| > 0 && isWord(stub) then [stub] else [])
  }

  /** Whether the inner loop of `getPhotoTags` keeps a stub: it is non-empty and a dictionary word. */
  predicate IsKept(w: string, isWord: string -> bool) {
    |w| > 0 && isWord(w)
  }

  /** The filter keeps each non-empty dictionary stub as often as it occurs, and nothing else. */
  lemma {:induction false} KeepWordsCounts(stubs: seq<string>, isWord: string -> bool)
    ensures forall w :: multiset(KeepWords(stubs, isWord))[w] == (if IsKept(w, isWord) then multiset(stubs)[w] else 0)
  {
    if |stubs| > 0 {
      var init, stub := stubs[..|stubs| - 1], stubs[|stubs| - 1];
      KeepWordsCounts(init, isWord);
      assert init + [stub] == stubs;
      var kept := KeepWords(init, isWord);
      var tail := if IsKept(stub, isWord) then [stub] else [];
      var ws := KeepWords(stubs, isWord);
      assert ws == kept + tail;
      forall w ensures multiset(ws)[w] == (if IsKept(w, isWord) then multiset(stubs)[w] else 0) {
        assert multiset(ws)[w] == multiset(kept)[w] + multiset(tail)[w];
        assert multiset(stubs)[w] == multiset(init)[w] + multiset([stub])[w];
      }
    }
  }

  /** Every non-empty dictionary stub is kept, and only stubs are kept. */
  lemma KeepWordsComplete(stubs: seq<string>, isWord: string -> bool)
    ensures multiset(KeepWords(stubs, isWord)) <= multiset(stubs)
    ensures forall i :: 0 <= i < |stubs| && IsKept(stubs[i], isWord) ==> stubs[i] in KeepWords(stubs, isWord)
  {
    var ws := KeepWords(stubs, isWord);
    KeepWordsCounts(stubs, isWord);
    forall i | 0 <= i < |stubs| && IsKept(stubs[i], isWord) ensures stubs[i] in ws {
      assert stubs[i] in multiset(stubs);
      assert multiset(ws)[stubs[i]] > 0;
    }
  }

  /** The words one tag contributes: its sorted space-separated stubs that are dictionary words. */
  function TagWords(text: string, decode: string -> Option<string>, isWord: string -> bool): seq<string> {
    KeepWords(Sort(Split(CleanTag(text, decode), ' ')), isWord)
  }

  /** Each word followed by a comma, as the loop appends them. */
  function Terminated(ws: seq<string>): string {
    if |ws| == 0 then "" else Terminated(ws[..|ws| - 1]) + ws[|ws| - 1] + ","
  }

  /** Whether a tag is taken: it has text and fits with the string built so far. */
  predicate Admits(acc: string, tag: Option<string>, maxlen: int) {
    tag.Some? && |acc| + |tag.value| <= maxlen
  }

  /** The `tagstring` after the loop has visited `tags` (before the final strip). */
  function Accumulated(tags: seq<Option<string>>, decode: string -> Option<string>,
                       isWord: string -> bool, maxlen: int): string
  {
    if |tags| == 0 then ""
    else
      var acc := Accumulated(tags[..|tags| - 1], decode, isWord, maxlen);
      var tag := tags[|tags| - 1];
      if Admits(acc, tag, maxlen) then acc + Terminated(TagWords(tag.value, decode, isWord)) else acc
  }

  /** The word lists of the taken tags, in document order. */
  function Pieces(tags: seq<Option<string>>, decode: string -> Option<string>,
                  isWord: string -> bool, maxlen: int): seq<seq<string>>
  {
    if |tags| == 0 then []
    else
      var acc := Accumulated(tags[..|tags| - 1], decode, isWord, maxlen);
      var tag := tags[|tags| - 1];
      Pieces(tags[..|tags| - 1], decode, isWord, maxlen)
        + (if Admits(acc, tag, maxlen) then [TagWords(tag.value, decode, isWord)] else [])
  }

  function Flatten(pieces: seq<seq<string>>): seq<string> {
    if |pieces| == 0 then [] else Flatten(pieces[..|pieces| - 1]) + pieces[|pieces| - 1]
  }

  /**
    `getPhotoTags` over the text of each `<tag>` child (None where a tag has
    no text): builds the comma-terminated string in nested loops and strips
    the commas at its ends.
   */
  method GetPhotoTags(tags: seq<Option<string>>, decode: string -> Option<string>,
                      isWord: string -> bool, maxlen: int) returns (tagString: string)
    ensures tagString == Strip(Accumulated(tags, decode, isWord, maxlen), ',')
  {
    var acc := "";
    for k := 0 to |tags|
      invariant acc == Accumulated(tags[..k], decode, isWord, maxlen)
    {
      var tag := tags[k];
      assert tags[..k + 1][..k] == tags[..k];
      if tag.Some? && |acc| + |tag.value| <= maxlen {
        var decoded := DecodeOrEmpty(tag.value, decode);
        decoded := RemoveAll(Lower(decoded), Punctuation);
        acc := AppendWords(acc, Sort(Split(decoded, ' ')), isWord);
      }
    }
    assert tags[..|tags|] == tags;
    tagString := Strip(acc, ',');
  }

  /** The inner loop of `getPhotoTags`: appends each non-empty dictionary stub and a comma. */
  method AppendWords(acc: string, stubs: seq<string>, isWord: string -> bool) returns (acc': string)
    ensures acc' == acc + Terminated(KeepWords(stubs, isWord))
  {
    acc' := acc;
    for j := 0 to |stubs|
      invariant acc' == acc + Terminated(KeepWords(stubs[..j], isWord))
    {
      var stub := stubs[j];
      AppendWordsStep(acc, acc', stubs, j, isWord);
      if |stub| > 0 && isWord(stub) {
        acc' := acc' + stub + ",";
      }
    }
    assert stubs[..|stubs|] == stubs;
  }

  /** One turn of the inner loop of `getPhotoTags` keeps the string in step with the words kept. */
  lemma AppendWordsStep(acc: string, cur: string, stubs: seq<string>, j: int, isWord: string -> bool)
    requires 0 <= j < |stubs|
    requires cur == acc + Terminated(KeepWords(stubs[..j], isWord))
    ensures |stubs[j]| > 0 && isWord(stubs[j]) ==>
      cur + stubs[j] + "," == acc + Terminated(KeepWords(stubs[..j + 1], isWord))
    ensures !(|stubs[j]| > 0 && isWord(stubs[j])) ==> cur == acc + Terminated(KeepWords(stubs[..j + 1], isWord))
  {
    var kept := KeepWords(stubs[..j], isWord);
    var next := KeepWords(stubs[..j + 1], isWord);
    KeepWordsSnoc(stubs, j, isWord);
    if |stubs[j]| > 0 && isWord(stubs[j]) {
      assert next == kept + [stubs[j]];
      TerminatedSnoc(kept, stubs[j]);
      AppendTerminated(acc, Terminated(kept), stubs[j]);
    } else {
      assert next == kept + [];
      assert kept + [] == kept;
    }
  }

  /** Kept words of one more stub: the same, plus the stub when it is a dictionary word. */
  lemma KeepWordsSnoc(stubs: seq<string>, j: int, isWord: string -> bool)
    requires 0 <= j < |stubs|
    ensures KeepWords(stubs[..j + 1], isWord) ==
      KeepWords(stubs[..j], isWord) + (if |stubs[j]| > 0 && isWord(stubs[j]) then [stubs[j]] else [])
  {
    assert stubs[..j + 1][..j] == stubs[..j];
  }

  /** Regrouping the appended word; kept apart so the loop step does not see the concatenation axioms at once. */
  lemma AppendTerminated(acc: string, t: string, w: string)
    ensures acc + (t + w + ",") == acc + t + w + ","
  {
  }

  lemma TerminatedSnoc(ws: seq<string>, w: string)
    ensures Terminated(ws + [w]) == Terminated(ws) + w + ","
  {
    assert (ws + [w])[..|ws|] == ws;
  }

  lemma {:induction false} TerminatedLength(ws: seq<string>)
    ensures |Terminated(ws)| == SumLen(ws) + |ws|
  {
    if |ws| > 0 {
      TerminatedLength(ws[..|ws| - 1]);
    }
  }

  lemma {:induction false} TerminatedConcat(a: seq<string>, b: seq<string>)
    ensures Terminated(a + b) == Terminated(a) + Terminated(b)
    decreases |b|
  {
    if |b| == 0 {
      assert a + b == a;
    } else {
      assert (a + b)[..|a + b| - 1] == a + b[..|b| - 1];
      TerminatedConcat(a, b[..|b| - 1]);
    }
  }

  lemma {:induction false} KeepWordsLength(stubs: seq<string>, isWord: string -> bool)
    ensures SumLen(KeepWords(stubs, isWord)) + |KeepWords(stubs, isWord)| <= SumLen(stubs) + |stubs|
  {
    if |stubs| > 0 {
      var init := stubs[..|stubs| - 1];
      var stub := stubs[|stubs| - 1];
      KeepWordsLength(init, isWord);
      var extra := if |stub| > 0 && isWord(stub) then [stub] else [];
      SumLenConcat(KeepWords(init, isWord), extra);
      assert extra != [] ==> extra[..0] == [];
    }
  }

  /** One tag contributes at most its own length plus one comma. */
  lemma TagWordsLength(text: string, decode: string -> Option<string>, isWord: string -> bool)
    requires DecodeNeverLengthens(decode)
    ensures |Terminated(TagWords(text, decode, isWord))| <= |text| + 1
  {
    var clean := CleanTag(text, decode);
    var pieces := Split(clean, ' ');
    SplitLength(clean, ' ');
    SortSumLen(pieces);
    KeepWordsLength(Sort(pieces), isWord);
    TerminatedLength(TagWords(text, decode, isWord));
  }

  /** Before the strip, the string exceeds the bound by at most its final comma. */
  lemma {:induction false} AccumulatedBound(tags: seq<Option<string>>, decode: string -> Option<string>,
                                            isWord: string -> bool, maxlen: int)
    requires maxlen >= 0 && DecodeNeverLengthens(decode)
    ensures var acc := Accumulated(tags, decode, isWord, maxlen);
      |acc| <= maxlen + 1 && (acc == "" || acc[|acc| - 1] == ',')
  {
    if |tags| > 0 {
      AccumulatedBound(tags[..|tags| - 1], decode, isWord, maxlen);
      var acc := Accumulated(tags[..|tags| - 1], decode, isWord, maxlen);
      var tag := tags[|tags| - 1];
      if Admits(acc, tag, maxlen) {
        var ws := TagWords(tag.value, decode, isWord);
        TagWordsLength(tag.value, decode, isWord);
        if |ws| > 0 {
          assert Terminated(ws) == Terminated(ws[..|ws| - 1]) + ws[|ws| - 1] + ",";
        }
      }
    }
  }

  /** The tag string never exceeds `maxlen`. */
  lemma TagStringLength(tags: seq<Option<string>>, decode: string -> Option<string>,
                        isWord: string -> bool, maxlen: int)
    requires maxlen >= 0 && DecodeNeverLengthens(decode)
    ensures |Strip(Accumulated(tags, decode, isWord, maxlen), ',')| <= maxlen
  {
    AccumulatedBound(tags, decode, isWord, maxlen);
    StripBound(Accumulated(tags, decode, isWord, maxlen), maxlen);
  }

  /** With the default `maxlen`, the one the crawler uses, a tag string is at most 300 characters. */
  lemma DefaultTagStringLength(tags: seq<Option<string>>, decode: string -> Option<string>, isWord: string -> bool)
    requires DecodeNeverLengthens(decode)
    ensures |Strip(Accumulated(tags, decode, isWord, DefaultMaxLen), ',')| <= 300
  {
    TagStringLength(tags, decode, isWord, DefaultMaxLen);
  }

  /** A string at most one over the bound, and ending in a comma when it is non-empty, strips to within the bound. */
  lemma StripBound(acc: string, maxlen: int)
    requires maxlen >= 0 && |acc| <= maxlen + 1 && (acc == "" || acc[|acc| - 1] == ',')
    ensures |Strip(acc, ',')| <= maxlen
  {
    if acc != "" {
      StripShortens(acc, ',');
    }
  }

  lemma {:induction false} AccumulatedIsTerminatedPieces(tags: seq<Option<string>>, decode: string -> Option<string>,
                                                         isWord: string -> bool, maxlen: int)
    ensures Accumulated(tags, decode, isWord, maxlen) == Terminated(Flatten(Pieces(tags, decode, isWord, maxlen)))
  {
    if |tags| > 0 {
      var init := tags[..|tags| - 1];
      AccumulatedIsTerminatedPieces(init, decode, isWord, maxlen);
      var acc := Accumulated(init, decode, isWord, maxlen);
      var tag := tags[|tags| - 1];
      var pp := Pieces(init, decode, isWord, maxlen);
      if Admits(acc, tag, maxlen) {
        var ws := TagWords(tag.value, decode, isWord);
        var pp' := pp + [ws];
        assert pp'[..|pp'| - 1] == pp;
        TerminatedConcat(Flatten(pp), ws);
      } else {
        assert pp + [] == pp;
      }
    }
  }

  ghost predicate AllWords(ws: seq<string>, isWord: string -> bool) {
    forall i :: 0 <= i < |ws| ==> |ws[i]| > 0 && isWord(ws[i])
  }

  lemma {:induction false} PiecesAreWords(tags: seq<Option<string>>, decode: string -> Option<string>,
                                          isWord: string -> bool, maxlen: int)
    ensures AllWords(Flatten(Pieces(tags, decode, isWord, maxlen)), isWord)
  {
    if |tags| > 0 {
      var init := tags[..|tags| - 1];
      PiecesAreWords(init, decode, isWord, maxlen);
      var acc := Accumulated(init, decode, isWord, maxlen);
      var tag := tags[|tags| - 1];
      var pp := Pieces(init, decode, isWord, maxlen);
      if Admits(acc, tag, maxlen) {
        var ws := TagWords(tag.value, decode, isWord);
        var pp' := pp + [ws];
        assert pp'[..|pp'| - 1] == pp;
        var f := Flatten(pp) + ws;
        forall i | 0 <= i < |f| ensures |f[i]| > 0 && isWord(f[i]) {
          if i >= |Flatten(pp)| {
            assert f[i] == ws[i - |Flatten(pp)|];
          }
        }
      } else {
        assert pp + [] == pp;
      }
    }
  }

  /** The words of each taken tag are in ascending order. */
  lemma {:induction false} PiecesSorted(tags: seq<Option<string>>, decode: string -> Option<string>,
                                        isWord: string -> bool, maxlen: int)
    ensures forall k :: 0 <= k < |Pieces(tags, decode, isWord, maxlen)| ==> Sorted(Pieces(tags, decode, isWord, maxlen)[k])
  {
    if |tags| > 0 {
      var init := tags[..|tags| - 1];
      PiecesSorted(init, decode, isWord, maxlen);
      var acc := Accumulated(init, decode, isWord, maxlen);
      var tag := tags[|tags| - 1];
      if Admits(acc, tag, maxlen) {
        var stubs := Sort(Split(CleanTag(tag.value, decode), ' '));
        SortSorted(Split(CleanTag(tag.value, decode), ' '));
        KeepWordsSorted(stubs, isWord);
      }
    }
  }

  lemma {:induction false} KeepWordsSorted(stubs: seq<string>, isWord: string -> bool)
    requires Sorted(stubs)
    ensures Sorted(KeepWords(stubs, isWord))
    ensures forall i :: 0 <= i < |KeepWords(stubs, isWord)| ==> KeepWords(stubs, isWord)[i] in stubs
  {
    if |stubs| > 0 {
      var init := stubs[..|stubs| - 1];
      var last := stubs[|stubs| - 1];
      assert Sorted(init);
      KeepWordsSorted(init, isWord);
      var k := KeepWords(init, isWord);
      var r := KeepWords(stubs, isWord);
      forall i | 0 <= i < |r| ensures r[i] in stubs {
        if i < |k| {
          assert r[i] == k[i];
          var m :| 0 <= m < |init| && init[m] == k[i];
          assert stubs[m] == k[i];
        }
      }
      forall i, j | 0 <= i < j < |r| ensures LexLe(r[i], r[j]) {
        if j >= |k| {
          assert r[j] == last && r[i] == k[i];
          var m :| 0 <= m < |init| && init[m] == k[i];
          assert stubs[m] == k[i];
        }
      }
    }
  }

  lemma {:induction false} TerminatedIsJoinPlusComma(ws: seq<string>)
    requires |ws| >= 1
    ensures Terminated(ws) == Join(ws, ',') + ","
  {
    if |ws| >= 2 {
      TerminatedIsJoinPlusComma(ws[..|ws| - 1]);
    } else {
      assert ws[..0] == [];
    }
  }

  /** Stripping the comma-terminated words leaves the words joined by commas. */
  lemma StripTerminated(ws: seq<string>, isWord: string -> bool)
    requires AllWords(ws, isWord) && WordsHaveNoComma(isWord)
    ensures Strip(Terminated(ws), ',') == Join(ws, ',')
  {
    if |ws| > 0 {
      TerminatedIsJoinPlusComma(ws);
      var j := Join(ws, ',');
      JoinEnds(ws, ',');
      assert ws[0][0] == j[0];
      var last := ws[|ws| - 1];
      assert last[|last| - 1] == j[|j| - 1] by {
        assert j[|j| - |last|..][|last| - 1] == j[|j| - 1];
      }
      assert ',' !in ws[0] && ',' !in last;
      StripCommaFramed(j);
    }
  }

  /** A string that neither starts nor ends with a comma strips back to itself after one trailing comma. */
  lemma StripCommaFramed(j: string)
    requires j != "" && j[0] != ',' && j[|j| - 1] != ','
    ensures Strip(j + ",", ',') == j
  {
    var t := j + ",";
    assert t[0] == j[0];
    assert StripLeading(t, ',') == t;
    assert t[..|t| - 1] == j;
    assert StripTrailing(t, ',') == StripTrailing(j, ',');
    assert StripTrailing(j, ',') == j;
  }

  /**
    The shape of the tag string: the taken tags' words, in document order
    and each tag's words ascending, joined by commas; when there is at least
    one word, splitting at the commas gives back exactly those words, each a
    non-empty dictionary word.
   */
  lemma TagStringShape(tags: seq<Option<string>>, decode: string -> Option<string>,
                       isWord: string -> bool, maxlen: int)
    requires WordsHaveNoComma(isWord)
    ensures var r := Strip(Accumulated(tags, decode, isWord, maxlen), ',');
      var ws := Flatten(Pieces(tags, decode, isWord, maxlen));
      && r == Join(ws, ',')
      && (ws != [] ==> Split(r, ',') == ws)
      && (forall i :: 0 <= i < |ws| ==> |ws[i]| > 0 && isWord(ws[i]))
  {
    var ws := Flatten(Pieces(tags, decode, isWord, maxlen));
    AccumulatedIsTerminatedPieces(tags, decode, isWord, maxlen);
    PiecesAreWords(tags, decode, isWord, maxlen);
    StripTerminated(ws, isWord);
    if ws != [] {
      SplitJoin(ws, ',');
    }
  }

  // ---------------------------------------------------------------------
  // analyzePhoto: integer bucket sums and the packed colour
  // ---------------------------------------------------------------------

  /** Python's `h[lo:hi]` for 0 <= lo <= hi: bounds past the end are clamped. */
  function PySlice(h: seq<nat>, lo: nat, hi: nat): (r: seq<nat>)
    requires lo <= hi
    ensures |r| == if hi <= |h| then hi - lo else if lo <= |h| then |h| - lo else 0
    ensures forall i :: 0 <= i < |r| ==> lo + i < |h| && r[i] == h[lo + i]
  {
    var a := if lo < |h| then lo else |h|;
    var b := if hi < |h| then hi else |h|;
    h[a..b]
  }

  /** The sum over `zip(counts, range(0, 256))` of count * intensity. */
  function WeightedSum(counts: seq<nat>): nat {
    if |counts| == 0 then 0
    else WeightedSum(counts[..|counts| - 1]) + counts[|counts| - 1] * (|counts| - 1)
  }

  /** The number of pixels the counts describe. */
  function Total(counts: seq<nat>): nat {
    if |counts| == 0 then 0 else Total(counts[..|counts| - 1]) + counts[|counts| - 1]
  }

  /**
    The three channel loops of `analyzePhoto`, in integers: each channel's
    weighted sum is taken over the slice `h[256c : 256c + 255]`, which stops
    one bucket short, so intensity 255 never contributes.
   */
  method ChannelSums(h: seq<nat>) returns (red: nat, green: nat, blue: nat)
    ensures red == WeightedSum(PySlice(h, 0, 255))
    ensures green == WeightedSum(PySlice(h, 256, 511))
    ensures blue == WeightedSum(PySlice(h, 512, 767))
  {
    red := ChannelSum(PySlice(h, 0, 255));
    green := ChannelSum(PySlice(h, 256, 511));
    blue := ChannelSum(PySlice(h, 512, 767));
  }

  /** One channel loop: accumulates count * intensity along the zipped buckets. */
  method ChannelSum(counts: seq<nat>) returns (sum: nat)
    requires |counts| <= 256
    ensures sum == WeightedSum(counts)
  {
    sum := 0;
    for j := 0 to |counts|
      invariant sum == WeightedSum(counts[..j])
    {
      assert counts[..j + 1][..j] == counts[..j];
      sum := sum + counts[j] * j;
    }
    assert counts[..|counts|] == counts;
  }

  /** A weighted sum never exceeds the top intensity present times the pixel count. */
  lemma {:induction false} WeightedSumBound(counts: seq<nat>)
    requires |counts| >= 1
    ensures WeightedSum(counts) <= (|counts| - 1) * Total(counts)
  {
    if |counts| >= 2 {
      var init := counts[..|counts| - 1];
      var n := |counts| - 1;
      var t, x := Total(init), counts[n];
      WeightedSumBound(init);
      assert WeightedSum(counts) == WeightedSum(init) + x * n;
      assert Total(counts) == t + x;
      MulMonotonic(n - 1, n, t);
      MulDistributes(n, t, x);
    }
  }

  /** Products kept out of the inductive proofs, where the solver's nonlinear arithmetic would wander. */
  lemma MulDistributes(n: nat, a: nat, b: nat)
    ensures n * (a + b) == n * a + b * n
  {
  }

  lemma MulMonotonic(a: nat, b: nat, t: nat)
    requires a <= b
    ensures a * t <= b * t
  {
  }

  /** Every channel's weighted sum is at most 254 times its pixel count: no channel mean reaches 255. */
  lemma ChannelMeanBelow255(h: seq<nat>, c: nat)
    requires c < 3
    ensures WeightedSum(PySlice(h, 256 * c, 256 * c + 255)) <= 254 * Total(PySlice(h, 256 * c, 256 * c + 255))
  {
    WeightedSumAtMost254(PySlice(h, 256 * c, 256 * c + 255));
  }

  lemma WeightedSumAtMost254(s: seq<nat>)
    requires |s| <= 255
    ensures WeightedSum(s) <= 254 * Total(s)
  {
    if |s| >= 1 {
      WeightedSumBound(s);
      var t := Total(s);
      MulMonotonic(|s| - 1, 254, t);
    }
  }

  /** The histogram of an image with n pixels, each of value v in all three channels. */
  function UniformHistogram(n: nat, v: nat): (h: seq<nat>)
    requires v < 256
    ensures |h| == 768
  {
    seq(768, i => if i % 256 == v then n else 0)
  }

  lemma {:induction false} SingleBucketWeightedSum(counts: seq<nat>, v: nat, n: nat)
    requires forall i :: 0 <= i < |counts| ==> counts[i] == if i == v then n else 0
    ensures WeightedSum(counts) == if v < |counts| then n * v else 0
  {
    if |counts| > 0 {
      SingleBucketWeightedSum(counts[..|counts| - 1], v, n);
    }
  }

  lemma UniformChannel(n: nat, v: nat, c: nat, width: nat)
    requires v < 256 && c < 3 && width <= 256
    ensures var s := PySlice(UniformHistogram(n, v), 256 * c, 256 * c + width);
      |s| == width && forall i :: 0 <= i < width ==> s[i] == if i == v then n else 0
  {
    var h := UniformHistogram(n, v);
    var lo := ChannelStart(c);
    var s := PySlice(h, lo, lo + width);
    assert s == h[lo..lo + width];
    forall i | 0 <= i < width ensures s[i] == if i == v then n else 0 {
      assert s[i] == h[lo + i];
      ChannelOffset(c, i);
    }
  }

  /** Where channel c starts in the histogram. */
  function ChannelStart(c: nat): (lo: nat)
    requires c < 3
    ensures lo == 256 * c && lo + 256 <= 768
  {
    if c == 0 then 0 else if c == 1 then 256 else 512
  }

  /** Bucket i of channel c is intensity i. */
  lemma ChannelOffset(c: nat, i: nat)
    requires c < 3 && i < 256
    ensures (256 * c + i) % 256 == i
  {
    if c == 0 {
    } else if c == 1 {
      assert 256 * c + i == 256 + i;
    } else {
      assert 256 * c + i == 512 + i;
    }
  }

  /**
    As written, a uniform image keeps its channel value in the weighted sum
    only below 255: at 255 the sum is 0, as for black.
   */
  lemma UniformChannelSum(n: nat, v: nat, c: nat)
    requires v < 256 && c < 3
    ensures WeightedSum(PySlice(UniformHistogram(n, v), 256 * c, 256 * c + 255)) == if v < 255 then n * v else 0
  {
    UniformChannel(n, v, c, 255);
    SingleBucketWeightedSum(PySlice(UniformHistogram(n, v), 256 * c, 256 * c + 255), v, n);
  }

  /** A white pixel contributes nothing: a non-empty all-white image has red sum 0 instead of 255 per pixel. */
  lemma WhiteReadsAsBlack(n: nat)
    requires n > 0
    ensures WeightedSum(PySlice(UniformHistogram(n, 255), 0, 255)) == 0 != 255 * n
  {
    UniformChannelSum(n, 255, 0);
  }

  /**
    The channel sum over all 256 buckets of channel c: the loop pairs the
    256 intensities of `range(0, 256)` with the slice, so the slice is
    evidently meant to hold all 256 buckets of the channel.
   */
  function IntendedChannelSum(h: seq<nat>, c: nat): nat
    requires c < 3
  {
    WeightedSum(PySlice(h, 256 * c, 256 * c + 256))
  }

  /** Over all 256 buckets, a uniform image of value v sums to n * v in every channel. */
  lemma IntendedUniformChannelSum(n: nat, v: nat, c: nat)
    requires v < 256 && c < 3
    ensures IntendedChannelSum(UniformHistogram(n, v), c) == n * v
  {
    UniformChannel(n, v, c, 256);
    SingleBucketWeightedSum(PySlice(UniformHistogram(n, v), 256 * c, 256 * c + 256), v, n);
  }

  /**
    The colour code `r * 256^2 + g * 256 + b` of three rounded channel means:
    below 2^24, and each channel is read back by division and remainder.
   */
  function PackColor(r: nat, g: nat, b: nat): (avg: nat)
    requires r < 256 && g < 256 && b < 256
    ensures avg < 0x100_0000
    ensures avg / 65536 == r && (avg / 256) % 256 == g && avg % 256 == b
  {
    var avg := r * 65536 + g * 256 + b;
    assert avg / 256 == r * 256 + g;
    avg
  }

  /** Distinct channel triples never share a colour code. */
  lemma PackColorInjective(r: nat, g: nat, b: nat, r': nat, g': nat, b': nat)
    requires r < 256 && g < 256 && b < 256 && r' < 256 && g' < 256 && b' < 256
    requires PackColor(r, g, b) == PackColor(r', g', b')
    ensures r == r' && g == g' && b == b'
  {
  }

  /** What `Image.open` yields: the format name and the rounded statistics of the pixels. */
  datatype OpenedImage = OpenedImage(format: string, redMean: nat, greenMean: nat, blueMean: nat, stdDev: nat)

  /**
    `analyzePhoto`: None when the image cannot be opened (None here) or is not
    a JPEG; otherwise the packed mean colour and the standard deviation.
   */
  function AnalyzePhoto(image: Option<OpenedImage>): (r: Option<(nat, nat)>)
    requires image.Some? ==> image.value.redMean < 256 && image.value.greenMean < 256 && image.value.blueMean < 256
    ensures r.Some? <==> image.Some? && image.value.format == "JPEG"
    ensures r.Some? ==> (r.value.0 < 0x100_0000
      && r.value.0 / 65536 == image.value.redMean
      && (r.value.0 / 256) % 256 == image.value.greenMean
      && r.value.0 % 256 == image.value.blueMean
      && r.value.1 == image.value.stdDev)
  {
    match image
    case None => None
    case Some(im) =>
      if im.format != "JPEG" then None
      else Some((PackColor(im.redMean, im.greenMean, im.blueMean), im.stdDev))
  }
}
