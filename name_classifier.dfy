/**
 * The name classifier: which symbol names the filter keeps. A name is kept
 * when it looks like a C symbol (`@` or `_` first) or like a C++ symbol: an
 * Itanium C++ ABI mangled name (section 5.1 of the Itanium C++ ABI, prefix
 * `_Z`), an MSVC mangled name (prefix `?`), a `g_` global, or a demangled
 * qualified name containing `::`. The classifier is written for any string;
 * the names the line pattern captures are made of word characters only, so
 * on them the `@`, `?` and `::` tests never fire (see the Driver module).
 */
module NameClassifier {

  /** `str::starts_with`. */
  predicate StartsWith(s: string, prefix: string) { prefix <= s }

  /** `str::contains`: `pattern` occurs in s starting at some position. */
  predicate Contains(s: string, pattern: string)
    decreases |s|
  {
    pattern <= s || (|s| > 0 && Contains(s[1..], pattern))
  }

  /** `is_c_name`. */
  predicate IsCName(name: string) { StartsWith(name, "@") || StartsWith(name, "_") }

  /** `is_cxx_name`. */
  predicate IsCxxName(name: string) {
    StartsWith(name, "_Z") || StartsWith(name, "?") || StartsWith(name, "g_") || Contains(name, "::")
  }

  /** `should_dump`. */
  predicate ShouldDump(name: string) { IsCxxName(name) || IsCName(name) }

  /** Two adjacent colons somewhere in s, stated on positions. */
  ghost predicate HasDoubleColonAt(s: string) {
    exists i :: 0 <= i < |s| - 1 && s[i] == ':' && s[i + 1] == ':'
  }

  /** `contains("::")` holds exactly when two colons stand side by side. */
  lemma {:induction false} ContainsDoubleColon(s: string)
    ensures Contains(s, "::") <==> HasDoubleColonAt(s)
    decreases |s|
  {
    if |s| > 0 {
      ContainsDoubleColon(s[1..]);
      if HasDoubleColonAt(s[1..]) {
        var i :| 0 <= i < |s[1..]| - 1 && s[1..][i] == ':' && s[1..][i + 1] == ':';
        assert s[i + 1] == ':' && s[i + 2] == ':';
      }
      if HasDoubleColonAt(s) && !("::" <= s) {
        var i :| 0 <= i < |s| - 1 && s[i] == ':' && s[i + 1] == ':';
        assert i > 0;
        assert s[1..][i - 1] == ':' && s[1..][i] == ':';
      }
      if "::" <= s {
        assert s[0] == ':' && s[1] == ':';
      }
    }
  }

  /** `is_c_name` on characters: the first character is `@` or `_`. */
  lemma IsCNameExactly(name: string)
    ensures IsCName(name) <==> |name| > 0 && (name[0] == '@' || name[0] == '_')
  {
    if |name| > 0 && (name[0] == '@' || name[0] == '_') {
      assert name[..1] == [name[0]];
    }
  }

  /**
   * `is_cxx_name` on characters: the name begins with `_Z`, `?` or `g_`, or
   * two colons stand side by side somewhere in it.
   */
  lemma IsCxxNameExactly(name: string)
    ensures IsCxxName(name) <==>
      || (|name| > 1 && name[0] == '_' && name[1] == 'Z')
      || (|name| > 0 && name[0] == '?')
      || (|name| > 1 && name[0] == 'g' && name[1] == '_')
      || HasDoubleColonAt(name)
  {
    ContainsDoubleColon(name);
    if |name| > 1 && ((name[0] == '_' && name[1] == 'Z') || (name[0] == 'g' && name[1] == '_')) {
      assert name[..2] == [name[0], name[1]];
    }
    if |name| > 0 && name[0] == '?' {
      assert name[..1] == [name[0]];
    }
  }

  /**
   * The classifier on characters: a name is kept exactly when its first
   * character is `@`, `_` or `?`, or it begins with `g_`, or it contains `::`.
   * The `_Z` test never decides anything, because `_` alone already accepts.
   */
  lemma ShouldDumpExactly(name: string)
    ensures ShouldDump(name) <==>
      || (|name| > 0 && (name[0] == '@' || name[0] == '_' || name[0] == '?'))
      || (|name| > 1 && name[0] == 'g' && name[1] == '_')
      || HasDoubleColonAt(name)
  {
    IsCNameExactly(name);
    IsCxxNameExactly(name);
  }

  /** Dropping the `_Z` test from the C++ classifier changes no decision. */
  lemma ItaniumPrefixRedundant(name: string)
    ensures ShouldDump(name) <==>
      StartsWith(name, "?") || StartsWith(name, "g_") || Contains(name, "::") || IsCName(name)
  {
    if StartsWith(name, "_Z") {
      assert name[0] == '_' && name[..1] == "_";
    }
  }

  /** Names the classifier rejects: plain words, a leading digit, a dotted name. */
  lemma RejectsPlainNames()
    ensures !ShouldDump("hello") && !ShouldDump("123abc") && !ShouldDump("foo.bar") && !ShouldDump("foo")
  {
    NoColonNoDoubleColon("hello");
    ShouldDumpExactly("hello");
    NoColonNoDoubleColon("123abc");
    ShouldDumpExactly("123abc");
    NoColonNoDoubleColon("foo.bar");
    ShouldDumpExactly("foo.bar");
    NoColonNoDoubleColon("foo");
    ShouldDumpExactly("foo");
  }

  /** Names the classifier keeps: a C symbol, an Itanium and an MSVC mangled name, a global, a qualified name. */
  lemma KeepsSymbolNames()
    ensures ShouldDump("_main") && ShouldDump("@fastcall@8") && ShouldDump("_ZN3foo3barEv")
    ensures ShouldDump("?bar@foo@@QAEXXZ") && ShouldDump("g_state") && ShouldDump("foo::bar")
  {
    assert "::" <= "foo::bar"[3..];
    assert "foo::bar"[1..][1..][1..] == "foo::bar"[3..];
  }

  /** A name without any colon does not contain `::`. */
  lemma NoColonNoDoubleColon(s: string)
    requires ':' !in s
    ensures !Contains(s, "::") && !HasDoubleColonAt(s)
  {
    ContainsDoubleColon(s);
  }
}
