/**
 * The "god mode" easter egg of App.tsx: a window key listener appends each
 * upper-cased key name to a buffer holding at most the last six characters,
 * and typing "SAMSCO" toggles the flag and empties the buffer.
 */
module KeyHistory {

  const SECRET: string := "SAMSCO"
  const HISTORY_LIMIT: nat := 6

  /** `toUpperCase` restricted to ASCII letters. */
  function UpperChar(c: char): (u: char)
    ensures 'a' <= c <= 'z' ==> u as int == c as int - 32
    ensures !('a' <= c <= 'z') ==> u == c
  {
    if 'a' <= c <= 'z' then (c as int - 32) as char else c
  }

  function ToUpper(s: string): (u: string)
    ensures |u| == |s|
    ensures forall k :: 0 <= k < |s| ==> u[k] == UpperChar(s[k])
  {
    seq(|s|, k requires 0 <= k < |s| => UpperChar(s[k]))
  }

  /** `s.slice(-6)` when longer than six characters, `s` otherwise. */
  function KeepLast(s: string): (t: string)
    ensures |t| == if |s| < HISTORY_LIMIT then |s| else HISTORY_LIMIT
    ensures t == s[|s| - |t|..]
  {
    if |s| > HISTORY_LIMIT then s[|s| - HISTORY_LIMIT..] else s
  }

  /** The buffer and the flag the listener maintains. */
  datatype KeyState = KeyState(history: string, godMode: bool)

  /** One key press. */
  function PressKey(st: KeyState, key: string): (next: KeyState)
    ensures |next.history| <= HISTORY_LIMIT
    ensures next.godMode != st.godMode <==> KeepLast(st.history + ToUpper(key)) == SECRET
    ensures next.godMode != st.godMode ==> next.history == ""
    ensures next.godMode == st.godMode ==>
      var typed := st.history + ToUpper(key);
      |next.history| <= |typed| && next.history == typed[|typed| - |next.history|..]
    ensures next.godMode == st.godMode ==> next.history == KeepLast(st.history + ToUpper(key))
  {
    var history := KeepLast(st.history + ToUpper(key));
    if history == SECRET then KeyState("", !st.godMode) else KeyState(history, st.godMode)
  }

  /** A run of key presses, in order. */
  function PressKeys(st: KeyState, keys: seq<string>): KeyState
    decreases |keys|
  {
    if keys == [] then st else PressKey(PressKeys(st, keys[..|keys| - 1]), keys[|keys| - 1])
  }

  predicate EndsWith(s: string, w: string) {
    |w| <= |s| && s[|s| - |w|..] == w
  }

  /** Keys spelling the secret one letter at a time, in either case. */
  predicate SpellsSecret(keys: seq<string>) {
    |keys| == |SECRET| && forall k :: 0 <= k < |keys| ==> ToUpper(keys[k]) == [SECRET[k]]
  }

  /** A one-letter key other than O extends the remembered tail and never toggles. */
  lemma PressLetter(st: KeyState, key: string, w: string, c: char)
    requires ToUpper(key) == [c] && c != 'O'
    requires EndsWith(st.history, w) && |w| < HISTORY_LIMIT
    ensures PressKey(st, key).godMode == st.godMode
    ensures EndsWith(PressKey(st, key).history, w + [c])
  {
    var typed := st.history + [c];
    var kept := KeepLast(typed);
    assert kept[|kept| - 1] == c;
    assert kept != SECRET by {
      assert SECRET[5] == 'O';
    }
    assert typed[|typed| - |w + [c]|..] == w + [c];
  }

  lemma OnlyLastLetterIsO(i: nat)
    requires i < |SECRET| - 1
    ensures SECRET[i] != 'O'
  {
  }

  lemma SliceExtend(s: string, j: nat)
    requires 0 < j <= |s|
    ensures s[..j - 1] + [s[j - 1]] == s[..j]
  {
  }

  lemma TakeAll<T>(s: seq<T>)
    ensures s[..|s|] == s
  {
  }

  lemma PressKeysStep(st: KeyState, keys: seq<string>, j: nat)
    requires 0 < j <= |keys|
    ensures PressKeys(st, keys[..j]) == PressKey(PressKeys(st, keys[..j - 1]), keys[j - 1])
  {
    assert keys[..j][..j - 1] == keys[..j - 1];
  }

  /** After the first `j < 6` letters of the secret, nothing has toggled and the buffer ends with them. */
  lemma {:induction false} SecretPrefixTyped(st: KeyState, keys: seq<string>, j: nat)
    requires SpellsSecret(keys) && j < |SECRET|
    ensures PressKeys(st, keys[..j]).godMode == st.godMode
    ensures EndsWith(PressKeys(st, keys[..j]).history, SECRET[..j])
  {
    if j > 0 {
      SecretPrefixTyped(st, keys, j - 1);
      PressKeysStep(st, keys, j);
      SecretLetterTyped(PressKeys(st, keys[..j - 1]), keys[j - 1], j - 1);
    }
  }

  lemma SecretLetterTyped(before: KeyState, key: string, i: nat)
    requires i < |SECRET| - 1 && ToUpper(key) == [SECRET[i]]
    requires EndsWith(before.history, SECRET[..i])
    ensures PressKey(before, key).godMode == before.godMode
    ensures EndsWith(PressKey(before, key).history, SECRET[..i + 1])
  {
    OnlyLastLetterIsO(i);
    PressLetter(before, key, SECRET[..i], SECRET[i]);
    SliceExtend(SECRET, i + 1);
  }

  /**
   * Typing S, A, M, S, C, O (in either case) toggles god mode exactly once and
   * empties the buffer, whatever was typed before.
   */
  lemma TypingSecretToggles(st: KeyState, keys: seq<string>)
    requires SpellsSecret(keys)
    ensures PressKeys(st, keys) == KeyState("", !st.godMode)
  {
    var n := |keys|;
    SecretPrefixTyped(st, keys, n - 1);
    PressKeysStep(st, keys, n);
    TakeAll(keys);
    SecretLastLetterTyped(PressKeys(st, keys[..n - 1]), keys[n - 1]);
  }

  lemma SecretLastLetterTyped(before: KeyState, key: string)
    requires ToUpper(key) == [SECRET[|SECRET| - 1]]
    requires EndsWith(before.history, SECRET[..|SECRET| - 1])
    ensures PressKey(before, key) == KeyState("", !before.godMode)
  {
    var typed := before.history + ToUpper(key);
    SliceExtend(SECRET, |SECRET|);
    assert typed[|typed| - |SECRET|..] == SECRET;
    assert KeepLast(typed) == SECRET;
  }
}
