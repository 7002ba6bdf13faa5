/*
 * The NSError bridge's `user_info()` accessor and its `fmt::Display` and
 * `fmt::Debug` implementations, step by step as the source writes them:
 * each `write_str` appends to the formatter's buffer, and the user info is
 * consumed through a freshly wrapped NSDictionary.  Each method is proved to
 * produce the text that module Error specifies.
 */
module ErrorFmt {
  import opened Native
  import opened Fmt
  import opened Error
  import opened Dictionary

  /**
   * `user_info()`: the native user-info dictionary, wrapped anew on every
   * call, so each call gets its own enumerator at the first entry.
   */
  method UserInfo(e: ErrorVal) returns (d: NSDictionary)
    requires DistinctKeys(e.info)
    ensures fresh(d)
    ensures d.Valid() && d.Handle() == UserInfoHandle(e)
    ensures d.pos == 0 && d.Remaining() == e.info
    ensures d.Len() == |e.info|
  {
    UserInfoEntries(e);
    d := new NSDictionary.FromHandle(UserInfoHandle(e));
  }

  /**
   * `fmt::Display`: the header, then either the empty-info marker, or one
   * line per user-info entry, in the order the enumerator yields them,
   * followed by the closing brace.  A nested underlying error is rendered by
   * the same method.
   */
  method Display(e: ErrorVal) returns (out: string)
    requires WellFormedError(e)
    ensures out == Render(e)
    decreases e
  {
    out := "NSError:\n";
    out := out + "  code       : " + Decimal(Code(e)) + "\n";
    out := out + "  description: " + LocalizedDescription(e) + "\n";
    assert out == Header(e);

    var userInfo := UserInfo(e);
    if userInfo.IsEmpty() {
      out := out + EmptyUserInfo;
      return;
    }

    out := out + OpenUserInfo;
    ghost var opening := out;
    while true
      invariant userInfo.Valid() && userInfo.Handle() == UserInfoHandle(e)
      invariant userInfo.Remaining() == e.info[userInfo.pos..]
      invariant userInfo.pos <= |e.info|
      invariant out == opening + Lines(e.info[..userInfo.pos])
      decreases |e.info| - userInfo.pos
    {
      ghost var done := userInfo.pos;
      var item := userInfo.Next();
      if item.None? {
        break;
      }
      var (k, v) := item.value;
      assert item.value == e.info[done];
      assert WellFormedEntry(e.info[done]);
      var text;
      if k == LocalizedFailureKey || k == LocalizedFailureReasonKey {
        text := v.text;
      } else if k == UnderlyingErrorKey {
        text := Display(v.error);
      } else {
        text := PointerText(v.handle);
      }
      var line := LineOf(k, text);
      assert line == EntryLine(e.info[done]);
      LinesExtend(e.info, done, out, opening, line);
      out := out + line;
      assert userInfo.pos == done + 1;
    }
    assert e.info[..userInfo.pos] == e.info;
    UserInfoTail(e);
    out := out + CloseUserInfo;
  }

  /**
   * `fmt::Debug`: `debug_struct("NSError")` with the fields code,
   * description and userinfo, the last rendered by the dictionary's own
   * Debug on a freshly wrapped user-info dictionary.
   */
  method DebugText(e: ErrorVal) returns (out: string)
    requires RuntimeError(e)
    ensures out == DebugError(e)
  {
    var userInfo := UserInfo(e);
    UserInfoEntries(e);
    UserInfoValues(e);
    var infoText := userInfo.Debug();
    assert infoText == DebugMap(e.info);
    out := "NSError { code: " + Decimal(Code(e))
      + ", description: " + Quoted(LocalizedDescription(e))
      + ", userinfo: " + infoText + " }";
  }
}
