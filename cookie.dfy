/**
 * Cookie lookup (`getCookie`). The browser's cookie string is a parameter
 * instead of `document.cookie`; `null` is None.
 */
module Cookie {
  import opened Wrappers
  import opened Strings

  /** Entry `entry` of the cookie string, with its leading spaces dropped, starts with `prefix`. */
  predicate EntryStartsWith(entry: string, prefix: string)
  {
    prefix <= TrimLeadingSpaces(entry)
  }

  /**
   * The text after `prefix` in the first entry that starts with it once
   * leading spaces are dropped; None when no entry does.
   */
  function FirstWithPrefix(entries: seq<string>, prefix: string): Option<string>
  {
    if entries == [] then None
    else
      var c := TrimLeadingSpaces(entries[0]);
      if prefix <= c then Some(c[|prefix|..]) else FirstWithPrefix(entries[1..], prefix)
  }

  /** There is no answer exactly when no entry starts with the prefix. */
  lemma {:induction false} FirstWithPrefixNone(entries: seq<string>, prefix: string)
    ensures FirstWithPrefix(entries, prefix).None?
        <==> forall i :: 0 <= i < |entries| ==> !EntryStartsWith(entries[i], prefix)
  {
    if entries != [] {
      FirstWithPrefixNone(entries[1..], prefix);
      assert forall i :: 1 <= i < |entries| ==> entries[i] == entries[1..][i - 1];
    }
  }

  /**
   * An answer comes from the first entry that starts with the prefix: the
   * entry is the prefix followed by the answer, and no earlier entry matches.
   */
  lemma {:induction false} FirstWithPrefixSome(entries: seq<string>, prefix: string) returns (i: nat)
    requires FirstWithPrefix(entries, prefix).Some?
    ensures i < |entries|
    ensures TrimLeadingSpaces(entries[i]) == prefix + FirstWithPrefix(entries, prefix).value
    ensures forall j :: 0 <= j < i ==> !EntryStartsWith(entries[j], prefix)
  {
    assert entries != [];
    var c := TrimLeadingSpaces(entries[0]);
    if prefix <= c {
      i := 0;
      assert c == prefix + c[|prefix|..];
      assert FirstWithPrefix(entries, prefix) == Some(c[|prefix|..]);
    } else {
      var rest := entries[1..];
      assert FirstWithPrefix(entries, prefix) == FirstWithPrefix(rest, prefix);
      var k := FirstWithPrefixSome(rest, prefix);
      i := k + 1;
      assert entries[i] == rest[k];
      forall j | 0 <= j < i ensures !EntryStartsWith(entries[j], prefix) {
        if j > 0 {
          assert entries[j] == rest[j - 1];
        }
      }
    }
  }

  /** What `getCookie(name)` returns when `document.cookie` is `cookie`. */
  function LookupCookie(cookie: string, name: string): Option<string>
  {
    FirstWithPrefix(Split(cookie, ';'), name + "=")
  }

  /** `getCookie`: scan the `;`-separated entries, drop leading spaces, return the first match. */
  method GetCookie(cookie: string, name: string) returns (r: Option<string>)
    ensures r == LookupCookie(cookie, name)
  {
    var nameEQ := name + "=";
    var ca := Split(cookie, ';');
    for i := 0 to |ca|
      invariant FirstWithPrefix(ca, nameEQ) == FirstWithPrefix(ca[i..], nameEQ)
    {
      var c := ca[i];
      while |c| > 0 && c[0] == ' '
        invariant TrimLeadingSpaces(c) == TrimLeadingSpaces(ca[i])
      {
        c := c[1..];
      }
      assert ca[i..][1..] == ca[i + 1..];
      if nameEQ <= c {
        return Some(c[|nameEQ|..]);
      }
    }
    return None;
  }

  /** An earlier match is never overridden by later entries; otherwise the later entries decide. */
  lemma {:induction false} FirstWithPrefixAppend(a: seq<string>, b: seq<string>, prefix: string)
    ensures FirstWithPrefix(a + b, prefix)
         == if FirstWithPrefix(a, prefix).Some? then FirstWithPrefix(a, prefix) else FirstWithPrefix(b, prefix)
  {
    if a == [] {
      assert a + b == b;
    } else {
      FirstWithPrefixAppend(a[1..], b, prefix);
      assert (a + b)[1..] == a[1..] + b;
    }
  }

  /** Looking up in `a;b`: the answer from `a` if it has one, else the answer from `b`. */
  lemma LookupConcat(a: string, b: string, name: string)
    ensures LookupCookie(a + ";" + b, name)
         == if LookupCookie(a, name).Some? then LookupCookie(a, name) else LookupCookie(b, name)
  {
    SplitAppend(a, b, ';');
    FirstWithPrefixAppend(Split(a, ';'), Split(b, ';'), name + "=");
  }

  /** A single entry `name=value`, possibly after spaces, yields `value`. */
  lemma LookupSingleEntry(spaces: string, name: string, value: string)
    requires forall k :: 0 <= k < |spaces| ==> spaces[k] == ' '
    requires ';' !in name && ';' !in value
    requires name == [] || name[0] != ' '
    ensures LookupCookie(spaces + name + "=" + value, name) == Some(value)
  {
    var prefix := name + "=";
    var entry := prefix + value;
    var s := spaces + entry;
    assert spaces + name + "=" + value == s;
    assert ';' !in spaces;
    assert ';' !in s;
    SplitWithoutSeparator(s, ';');
    assert entry[0] != ' ' by {
      if name == [] {
        assert entry[0] == '=';
      } else {
        assert entry[0] == name[0];
      }
    }
    TrimLeadingSpacesAfter(spaces, entry);
    assert prefix <= entry && entry[|prefix|..] == value;
    assert FirstWithPrefix([s], prefix) == Some(value);
  }

  /** A name that holds `;` or starts with a space is never found. */
  lemma LookupUnreachableName(cookie: string, name: string)
    requires ';' in name || (name != [] && name[0] == ' ')
    ensures LookupCookie(cookie, name) == None
  {
    var entries := Split(cookie, ';');
    var prefix := name + "=";
    FirstWithPrefixNone(entries, prefix);
    SplitPiecesLackSeparator(cookie, ';');
    forall i | 0 <= i < |entries| ensures !EntryStartsWith(entries[i], prefix) {
      var e := entries[i];
      var c := TrimLeadingSpaces(e);
      TrimLeadingSpacesRemovesSpaces(e);
      if ';' in name {
        var k :| 0 <= k < |name| && name[k] == ';';
        assert prefix[k] == ';';
        assert ';' !in c by {
          assert c == e[|e| - |c|..];
        }
      } else {
        assert prefix[0] == ' ';
      }
    }
  }
}
