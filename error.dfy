/*
 * The NSError bridge as values: its read-only accessors and the text its
 * `Display` and `Debug` implementations produce.  The Debug text of a
 * dictionary lives here too, because the two Debug implementations call
 * each other: a dictionary renders an NSError value through the error's
 * Debug form, and an error renders its user info through the dictionary's.
 * The methods that produce these texts by walking an NSDictionary wrapper
 * are in module ErrorFmt.
 */
module Error {
  import opened Native
  import opened Fmt

  const USIZE_MODULUS := 0x1_0000_0000_0000_0000

  /**
   * `code()`: the native NSInteger cast `as usize`, so that a negative code
   * reads as its 64-bit two's-complement bit pattern.
   */
  function Code(e: ErrorVal): (c: nat)
    requires IsI64(e.code)
    ensures c < USIZE_MODULUS
    ensures (c - e.code) % USIZE_MODULUS == 0
    ensures e.code >= 0 ==> c == e.code
  {
    if e.code < 0 then e.code + USIZE_MODULUS else e.code
  }

  /** `localized_description()`: the native description, fetched anew on every call. */
  function LocalizedDescription(e: ErrorVal): string
  {
    e.desc
  }

  // ---------------------------------------------------------------------------
  // Display
  // ---------------------------------------------------------------------------

  const KeyWidth := 24
  const EmptyUserInfo := "  userinfo   : { }"
  const OpenUserInfo := "  userinfo   : {"
  const CloseUserInfo := "\n  }"
  const EntryIndent := "\n    "
  const KeySeparator := ": "

  /** The three lines every rendering starts with. */
  function Header(e: ErrorVal): string
    requires IsI64(e.code)
  {
    "NSError:\n"
    + "  code       : " + Decimal(Code(e)) + "\n"
    + "  description: " + LocalizedDescription(e) + "\n"
  }

  /** The Display text of `e`. */
  function Render(e: ErrorVal): (r: string)
    requires WellFormedError(e)
    decreases e
  {
    Header(e)
    + if e.info == [] then EmptyUserInfo
      else OpenUserInfo + Lines(e.info) + CloseUserInfo
  }

  /**
   * Every rendering starts with the fixed header line, the code line and the
   * description line, whatever the user info holds.
   */
  lemma {:induction false} HeaderLayout(e: ErrorVal)
    requires WellFormedError(e)
    ensures var h := "NSError:\n" + "  code       : " + Decimal(Code(e)) + "\n" + "  description: " + e.desc + "\n";
            |h| <= |Render(e)| && Render(e)[..|h|] == h
  {
    var tail := if e.info == [] then EmptyUserInfo else OpenUserInfo + Lines(e.info) + CloseUserInfo;
    PrefixOfConcat(Header(e), tail);
  }

  /**
   * `localized_description()` as the rendering shows it: the description
   * text stands verbatim right after the description label and is ended by
   * a line break.
   */
  lemma {:induction false} DescriptionLineAt(e: ErrorVal) returns (at: nat)
    requires WellFormedError(e)
    ensures var lead := "NSError:\n" + "  code       : " + Decimal(Code(e)) + "\n" + "  description: ";
            var d := LocalizedDescription(e);
            at == |lead| && at + |d| < |Render(e)|
            && Render(e)[..at] == lead && Render(e)[at..at + |d|] == d && Render(e)[at + |d|] == '\n'
  {
    var lead := "NSError:\n" + "  code       : " + Decimal(Code(e)) + "\n" + "  description: ";
    HeaderLayout(e);
    InPrefix(Render(e), lead, e.desc, "\n");
    at := |lead|;
  }

  /** The entry lines for `info`, one per entry, in iteration order. */
  function Lines(info: seq<(string, Value)>): string
    requires forall i :: 0 <= i < |info| ==> WellFormedEntry(info[i])
    decreases info
  {
    if info == [] then ""
    else Lines(info[..|info| - 1]) + EntryLine(info[|info| - 1])
  }

  function EntryLine(p: (string, Value)): string
    requires WellFormedEntry(p)
    decreases p, 1
  {
    LineOf(p.0, EntryText(p))
  }

  /** `format!("\n    {:<24}: {}", key, text)`. */
  function LineOf(key: string, text: string): string
  {
    EntryIndent + PadRight(key, KeyWidth) + KeySeparator + text
  }

  /**
   * The text after the key: the string itself for the two localized-failure
   * keys, the nested error's own rendering for the underlying error, and the
   * object's address for any other key.
   */
  function EntryText(p: (string, Value)): string
    requires WellFormedEntry(p)
    decreases p, 0
  {
    if p.0 == LocalizedFailureKey || p.0 == LocalizedFailureReasonKey then p.1.text
    else if p.0 == UnderlyingErrorKey then Render(p.1.error)
    else PointerText(p.1.handle)
  }

  lemma {:induction false} LinesAppend(a: seq<(string, Value)>, b: seq<(string, Value)>)
    requires forall i :: 0 <= i < |a| ==> WellFormedEntry(a[i])
    requires forall i :: 0 <= i < |b| ==> WellFormedEntry(b[i])
    ensures forall i :: 0 <= i < |a + b| ==> WellFormedEntry((a + b)[i])
    ensures Lines(a + b) == Lines(a) + Lines(b)
    decreases |b|
  {
    assert forall i :: 0 <= i < |a + b| ==> (a + b)[i] == if i < |a| then a[i] else b[i - |a|];
    if b == [] {
      assert a + b == a;
    } else {
      var n := |b| - 1;
      assert (a + b)[..|a + b| - 1] == a + b[..n];
      LinesAppend(a, b[..n]);
    }
  }

  /** Extending the rendered entries by one entry appends that entry's line. */
  lemma LinesStep(info: seq<(string, Value)>, n: nat)
    requires forall i :: 0 <= i < |info| ==> WellFormedEntry(info[i])
    requires n < |info|
    ensures Lines(info[..n + 1]) == Lines(info[..n]) + EntryLine(info[n])
  {
    assert info[..n + 1][..n] == info[..n];
  }

  /** The same step on a text that holds `opening` and the first `n` entry lines. */
  lemma LinesExtend(info: seq<(string, Value)>, n: nat, out: string, opening: string, line: string)
    requires forall i :: 0 <= i < |info| ==> WellFormedEntry(info[i])
    requires n < |info|
    requires out == opening + Lines(info[..n])
    requires line == EntryLine(info[n])
    ensures out + line == opening + Lines(info[..n + 1])
  {
    LinesStep(info, n);
    AppendAssoc(opening, Lines(info[..n]), line);
  }

  /**
   * The user-info part of the rendering: with no entries exactly the empty
   * marker and nothing after it; otherwise the opening line, the entry lines
   * and the closing brace.
   */
  lemma {:induction false} UserInfoTail(e: ErrorVal)
    requires WellFormedError(e)
    ensures UserInfoHandle(e).count == 0 ==> Render(e) == Header(e) + EmptyUserInfo
    ensures UserInfoHandle(e).count != 0 ==> Render(e) == Header(e) + OpenUserInfo + Lines(e.info) + CloseUserInfo
  {
    UserInfoEntries(e);
  }

  /** The rendering ends in the empty marker `{ }` exactly when the error has no user info. */
  lemma {:induction false} EmptyMarkerIff(e: ErrorVal)
    requires WellFormedError(e)
    ensures var r := Render(e); |r| >= 3 && (r[|r| - 3..] == "{ }" <==> e.info == [])
  {
    UserInfoTail(e);
    var r := Render(e);
    if e.info == [] {
      assert r[|r| - 3..] == EmptyUserInfo[|EmptyUserInfo| - 3..];
    } else {
      assert r[|r| - 3..] == CloseUserInfo[1..];
    }
  }

  /**
   * An entry line: the indent, the key left-aligned in a field of at least
   * 24 characters (a longer key is kept whole), ": ", and the value's text.
   */
  lemma LineLayout(key: string, text: string)
    ensures var line := LineOf(key, text);
            var w := if |key| < KeyWidth then KeyWidth else |key|;
            |line| == 5 + w + 2 + |text|
            && line[..5] == "\n    "
            && line[5..5 + |key|] == key
            && (forall j :: 5 + |key| <= j < 5 + w ==> line[j] == ' ')
            && line[5 + w..7 + w] == ": "
            && line[7 + w..] == text
  {
    var line := LineOf(key, text);
    var padded := PadRight(key, KeyWidth);
    var w := |padded|;
    assert line[5..5 + w] == padded;
    assert line[5..5 + |key|] == padded[..|key|];
    forall j | 5 + |key| <= j < 5 + w
      ensures line[j] == ' '
    {
      assert line[j] == padded[j - 5];
    }
  }

  /**
   * Where entry `i` sits: the rendering holds the line of entry `i` right
   * after the header, the opening line and the lines of entries `0..i`, so
   * entries appear one line each, in iteration order.
   */
  lemma {:induction false} EntryLineAt(e: ErrorVal, i: nat) returns (at: nat)
    requires WellFormedError(e)
    requires i < |e.info|
    ensures WellFormedEntry(e.info[i])
    ensures at == |Header(e)| + |OpenUserInfo| + |Lines(e.info[..i])|
    ensures at + |EntryLine(e.info[i])| <= |Render(e)|
    ensures Render(e)[at..at + |EntryLine(e.info[i])|] == EntryLine(e.info[i])
  {
    assert WellFormedEntry(e.info[i]);
    UserInfoTail(e);
    var pre, mid, post := e.info[..i], [e.info[i]], e.info[i + 1..];
    assert e.info == pre + mid + post;
    LinesAppend(pre, mid);
    LinesAppend(pre + mid, post);
    var line := EntryLine(e.info[i]);
    assert Lines(mid) == line by {
      assert mid[..0] == [];
    }
    assert Lines(e.info) == Lines(pre) + line + Lines(post);
    var before := Header(e) + OpenUserInfo + Lines(pre);
    var after := Lines(post) + CloseUserInfo;
    Regroup(Header(e), OpenUserInfo, Lines(pre), line, Lines(post), CloseUserInfo);
    at := |before|;
    SliceOfConcat(before, line, after);
  }

  /**
   * What stands after the key of entry `i`: the string for the two
   * localized-failure keys, the whole rendering of the underlying error
   * (the same renderer, applied to the nested error) for NSUnderlyingError,
   * and the value's address for every other key.
   */
  lemma {:induction false} EntryValueAt(e: ErrorVal, i: nat) returns (at: nat)
    requires WellFormedError(e)
    requires i < |e.info|
    ensures WellFormedEntry(e.info[i])
    ensures at + |EntryText(e.info[i])| <= |Render(e)|
    ensures Render(e)[at..at + |EntryText(e.info[i])|] == EntryText(e.info[i])
    ensures var (k, v) := e.info[i];
            (k == LocalizedFailureKey || k == LocalizedFailureReasonKey ==> v.Str? && EntryText(e.info[i]) == v.text)
            && (k == UnderlyingErrorKey ==> v.Err? && WellFormedError(v.error) && EntryText(e.info[i]) == Render(v.error))
            && (k != LocalizedFailureKey && k != LocalizedFailureReasonKey && k != UnderlyingErrorKey
                ==> EntryText(e.info[i]) == PointerText(v.handle))
  {
    at := EntryTextAt(e, i);
  }

  lemma {:induction false} EntryTextAt(e: ErrorVal, i: nat) returns (at: nat)
    requires WellFormedError(e)
    requires i < |e.info|
    ensures WellFormedEntry(e.info[i])
    ensures at + |EntryText(e.info[i])| <= |Render(e)|
    ensures Render(e)[at..at + |EntryText(e.info[i])|] == EntryText(e.info[i])
  {
    var lineAt := EntryLineAt(e, i);
    at := TextInLineAt(Render(e), lineAt, e.info[i].0, EntryText(e.info[i]));
  }

  /** Wherever a line stands in a text, its value text stands at the line's end. */
  lemma TextInLineAt(r: string, lineAt: nat, key: string, text: string) returns (at: nat)
    requires lineAt + |LineOf(key, text)| <= |r|
    requires r[lineAt..lineAt + |LineOf(key, text)|] == LineOf(key, text)
    ensures at + |text| <= |r| && r[at..at + |text|] == text
  {
    var line := LineOf(key, text);
    LineLayout(key, text);
    var off := 7 + if |key| < KeyWidth then KeyWidth else |key|;
    at := lineAt + off;
    assert forall j :: at <= j < at + |text| ==> r[j] == line[j - lineAt] == text[j - at];
  }

  // ---------------------------------------------------------------------------
  // Debug
  // ---------------------------------------------------------------------------

  /**
   * The `Debug` text of an error: `debug_struct` with the fields code,
   * description (a `String`, so quoted) and userinfo (the dictionary's
   * Debug text).
   */
  function DebugError(e: ErrorVal): string
    requires RuntimeError(e)
    decreases e
  {
    assert forall i :: 0 <= i < |e.info| ==> RuntimeValue(e.info[i].1);
    "NSError { code: " + Decimal(Code(e))
    + ", description: " + Quoted(LocalizedDescription(e))
    + ", userinfo: " + DebugMap(e.info) + " }"
  }

  /**
   * How the dictionary's Debug classifies a value by its runtime class: a
   * string renders as its text, an NSError as its Debug text, anything else
   * as its address and class name.  No class makes it fail.
   */
  function DebugValue(v: Value): string
    requires RuntimeValue(v)
    decreases v
  {
    if v.cls == StringClass then v.text
    else if v.cls == ErrorClass then DebugError(v.error)
    else PointerText(v.handle) + " (" + v.cls + ")"
  }

  /**
   * A value of any class other than the string and error classes renders as
   * its address, from which the handle reads back, followed by its class
   * name in parentheses.
   */
  lemma DebugValueOther(v: Value)
    requires RuntimeValue(v)
    requires v.cls != StringClass && v.cls != ErrorClass
    ensures var d := DebugValue(v); var n := |d| - |v.cls| - 3;
            3 <= n && d[..2] == "0x"
            && (forall i :: 2 <= i < n ==> IsDigit(d[i], 16))
            && (v.handle > 0 ==> d[2] != '0')
            && FromBase(d[2..n], 16) == v.handle
            && d[n..] == " (" + v.cls + ")"
  {
    assert DebugValue(v) == PointerText(v.handle) + " (" + v.cls + ")";
    TaggedPointerLayout(v.handle, v.cls);
  }

  /** The same layout for any address and class name. */
  lemma TaggedPointerLayout(addr: nat, cls: string)
    ensures var d := PointerText(addr) + " (" + cls + ")"; var n := |d| - |cls| - 3;
            3 <= n && d[..2] == "0x"
            && (forall i :: 2 <= i < n ==> IsDigit(d[i], 16))
            && (addr > 0 ==> d[2] != '0')
            && FromBase(d[2..n], 16) == addr
            && d[n..] == " (" + cls + ")"
  {
    var p := PointerText(addr);
    var t := " (" + cls + ")";
    var d := p + t;
    assert d == PointerText(addr) + " (" + cls + ")";
    SplitAt(p, t);
    assert |d| - |cls| - 3 == |p|;
    assert d[..2] == p[..2];
    assert forall i :: 0 <= i < |p| ==> d[i] == p[i];
    assert d[2..|p|] == p[2..];
  }

  /**
   * `Debug` classifies a value by its runtime class and never fails: a
   * string-class object is a string and shows its text, an NSError-class
   * object is an error meeting the runtime's guarantees and shows that error's Debug text, and
   * any other object shows its address and class name.
   */
  lemma DebugValueClassified(v: Value)
    requires RuntimeValue(v)
    ensures v.cls == StringClass ==> v.Str? && DebugValue(v) == v.text
    ensures v.cls == ErrorClass ==> v.Err? && RuntimeError(v.error) && DebugValue(v) == DebugError(v.error)
    ensures v.cls != StringClass && v.cls != ErrorClass ==> DebugValue(v) == PointerText(v.handle) + " (" + v.cls + ")"
  {
  }

  /**
   * Debug asks only what the runtime guarantees, Display also the documented
   * types of the special keys: an error whose NSLocalizedFailure holds a
   * number is outside what Display's unchecked conversion accepts, yet it
   * is one Debug renders (see `NumberShownByAddress`).
   */
  lemma MistypedSpecialKey()
    ensures var e := ErrorVal(1, "d", [(LocalizedFailureKey, Other(16, "__NSCFNumber"))]);
            RuntimeError(e) && !WellFormedError(e)
  {
    var e := ErrorVal(1, "d", [(LocalizedFailureKey, Other(16, "__NSCFNumber"))]);
    assert !WellFormedEntry(e.info[0]);
    assert RuntimeValue(e.info[0].1);
  }

  /** The number held by that key shows in Debug as its address and class. */
  lemma NumberShownByAddress()
    ensures DebugValue(Other(16, "__NSCFNumber")) == "0x10 (__NSCFNumber)"
  {
    var v := Other(16, "__NSCFNumber");
    DebugValueClassified(v);
    assert PointerText(16) == "0x10" by {
      PointerTwoDigits(1, 0);
      assert [DigitChar(1), DigitChar(0)] == "10";
    }
  }

  /**
   * Display holds a nested error to the documented key types only where it
   * renders it, under NSUnderlyingError: an error held by any other key
   * (here one whose own NSLocalizedFailure is a number) is accepted, and
   * its line shows only the object's address.
   */
  lemma NestedErrorShownByAddress()
    ensures var inner := ErrorVal(2, "x", [(LocalizedFailureKey, Other(16, "__NSCFNumber"))]);
            var e := ErrorVal(1, "d", [("Foo", Err(32, ErrorClass, inner))]);
            !WellFormedError(inner) && WellFormedError(e)
            && Render(e) == Header(e) + (OpenUserInfo + LineOf("Foo", "0x20") + CloseUserInfo)
  {
    var inner := ErrorVal(2, "x", [(LocalizedFailureKey, Other(16, "__NSCFNumber"))]);
    var e := ErrorVal(1, "d", [("Foo", Err(32, ErrorClass, inner))]);
    assert !WellFormedEntry(inner.info[0]);
    assert RuntimeError(inner) by {
      assert RuntimeValue(inner.info[0].1);
    }
    assert WellFormedEntry(e.info[0]);
    assert PointerText(32) == "0x20" by {
      PointerTwoDigits(2, 0);
      assert [DigitChar(2), DigitChar(0)] == "20";
    }
    SingleAddressLine(e);
  }

  /**
   * The Debug text of an error opens with its name, the code in decimal and
   * the quoted description, and closes the user-info map and the struct; an
   * error with no user info shows an empty map.
   */
  lemma DebugErrorLayout(e: ErrorVal)
    requires RuntimeError(e)
    ensures var d := DebugError(e);
            var p := "NSError { code: " + Decimal(Code(e)) + ", description: " + Quoted(e.desc) + ", userinfo: {";
            |p| + 3 <= |d| && d[..|p|] == p && d[|d| - 3..] == "} }"
            && (e.info == [] <==> d == p + "} }")
  {
    var d := DebugError(e);
    var head := "NSError { code: " + Decimal(Code(e)) + ", description: " + Quoted(e.desc) + ", userinfo: ";
    var p := head + "{";
    assert forall i :: 0 <= i < |e.info| ==> RuntimeValue(e.info[i].1);
    var entries := DebugEntries(e.info);
    assert d == head + DebugMap(e.info) + " }";
    assert DebugMap(e.info) == "{" + entries + "}";
    assert d == p + entries + "} }";
    PrefixOfConcat(p, DebugEntries(e.info) + "} }");
    if e.info != [] {
      DebugEntriesNonEmpty(e.info);
    }
  }

  /** One `debug_map` entry: the key as written by NSString's Debug (unquoted), then the value text as a quoted `String`. */
  function DebugEntry(p: (string, Value)): string
    requires RuntimeValue(p.1)
    decreases p
  {
    MapEntryOf(p.0, DebugValue(p.1))
  }

  /** `map.entry(&key, &text)` with `key` written verbatim and `text` a `String`. */
  function MapEntryOf(key: string, text: string): string
  {
    key + ": " + Quoted(text)
  }

  /** The `debug_map` entries for `es`, separated by ", ". */
  function DebugEntries(es: seq<(string, Value)>): string
    requires forall i :: 0 <= i < |es| ==> RuntimeValue(es[i].1)
    decreases es, 0
  {
    if es == [] then ""
    else if |es| == 1 then DebugEntry(es[0])
    else DebugEntries(es[..|es| - 1]) + ", " + DebugEntry(es[|es| - 1])
  }

  /** One more entry extends the entries' text by a separator (unless it is the first) and the entry. */
  lemma DebugEntriesStep(es: seq<(string, Value)>, n: nat)
    requires forall i :: 0 <= i < |es| ==> RuntimeValue(es[i].1)
    requires n < |es|
    ensures DebugEntries(es[..n + 1])
            == (if n == 0 then "" else DebugEntries(es[..n]) + ", ") + DebugEntry(es[n])
  {
    assert es[..n + 1][..n] == es[..n];
  }

  /** The same step on a text that holds the opening brace and the first `n` entries. */
  lemma DebugEntriesAppend(es: seq<(string, Value)>, n: nat, s: string, sep: string, entry: string)
    requires forall i :: 0 <= i < |es| ==> RuntimeValue(es[i].1)
    requires n < |es|
    requires s == "{" + DebugEntries(es[..n])
    requires sep == if n == 0 then "" else ", "
    requires entry == DebugEntry(es[n])
    ensures s + sep + entry == "{" + DebugEntries(es[..n + 1])
  {
    DebugEntriesStep(es, n);
  }

  /** The Debug text of a dictionary whose iteration yields `es`. */
  function DebugMap(es: seq<(string, Value)>): string
    requires forall i :: 0 <= i < |es| ==> RuntimeValue(es[i].1)
    decreases es, 1
  {
    "{" + DebugEntries(es) + "}"
  }

  /**
   * The value's part of a Debug entry reads back, through `Unescape`, as the
   * value's text, so nested error texts stay recoverable however many quotes
   * they contain.
   */
  lemma MapEntryRecoversText(key: string, text: string)
    ensures var d := MapEntryOf(key, text); var s := |key| + 3;
            |d| >= s + 1
            && d[..|key|] == key && d[|key|..s] == ": \"" && d[|d| - 1] == '"'
            && Unescape(d[s..|d| - 1]) == Some(text)
  {
    var body := Escape(text);
    assert MapEntryOf(key, text) == key + ": \"" + body + "\"";
    QuotedLayout(key, body);
    UnescapeEscape(text);
  }

  // ---------------------------------------------------------------------------
  // Helpers: where the parts of a concatenation stand, stated once so that
  // the proofs above need not rediscover them
  // ---------------------------------------------------------------------------

  lemma PrefixOfConcat(a: string, b: string)
    ensures (a + b)[..|a|] == a
  {
  }

  lemma Regroup(h: string, o: string, lp: string, l: string, lq: string, c: string)
    ensures h + o + (lp + l + lq) + c == (h + o + lp) + l + (lq + c)
  {
  }

  /** The middle part of a concatenation is where its length says. */
  lemma SliceOfConcat(a: string, b: string, c: string)
    ensures (a + b + c)[|a|..|a| + |b|] == b
  {
  }

  /** A concatenation splits back into its parts. */
  lemma SplitAt(a: string, b: string)
    ensures (a + b)[..|a|] == a && (a + b)[|a|..] == b
  {
  }

  /** Where the parts of `key: "body"` stand. */
  lemma QuotedLayout(key: string, body: string)
    ensures var d := key + ": \"" + body + "\""; var s := |key| + 3;
            |d| == s + |body| + 1
            && d[..|key|] == key && d[|key|..s] == ": \"" && d[|d| - 1] == '"'
            && d[s..|d| - 1] == body
  {
  }

  /** The parts of a prefix stand where their lengths say. */
  lemma InPrefix(r: string, a: string, b: string, c: string)
    requires |a + b + c| <= |r| && r[..|a + b + c|] == a + b + c
    ensures r[..|a|] == a && r[|a|..|a| + |b|] == b && r[|a| + |b|..|a| + |b| + |c|] == c
  {
    assert forall i :: 0 <= i < |a + b + c| ==> r[i] == (a + b + c)[i];
  }

  /** Entries that are there show up in the text. */
  lemma DebugEntriesNonEmpty(es: seq<(string, Value)>)
    requires forall i :: 0 <= i < |es| ==> RuntimeValue(es[i].1)
    requires es != []
    ensures |DebugEntries(es)| > 0
  {
    assert |Quoted(DebugValue(es[|es| - 1].1))| >= 2;
  }

  /** An error with one entry under an ordinary key renders that entry as one address line. */
  lemma SingleAddressLine(e: ErrorVal)
    requires WellFormedError(e) && |e.info| == 1
    requires e.info[0].0 != LocalizedFailureKey && e.info[0].0 != LocalizedFailureReasonKey
    requires e.info[0].0 != UnderlyingErrorKey
    ensures Render(e) == Header(e) + (OpenUserInfo + LineOf(e.info[0].0, PointerText(e.info[0].1.handle)) + CloseUserInfo)
  {
    assert WellFormedEntry(e.info[0]);
    assert e.info[..0] == [];
    assert Lines(e.info) == EntryLine(e.info[0]);
  }
}
