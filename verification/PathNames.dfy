/**
 The path code of filesystem/vfs.c: `canonicalize_path_name` with its stack of word positions, and `split_path`.

 A canonical name stands for a stack of components: empty components and "." are skipped, ".." pops.  What stands
 before the first slash of a name is ignored by the code.
 */
module PathNames {
  const MAX_PATH: nat := 256
  const NUL: char := '\0'

  // ---------------------------------------------------------------- names and components

  /** The length of the C string at the start of the buffer. */
  function StrLen(s: seq<char>): (n: nat)
    requires NUL in s
    ensures n < |s| && s[n] == NUL && forall k :: 0 <= k < n ==> s[k] != NUL
  {
    if s[0] == NUL then 0 else 1 + StrLen(s[1..])
  }

  function Name(s: seq<char>): seq<char>
    requires NUL in s
  {
    s[..StrLen(s)]
  }

  /** The pieces between slashes, empty ones included. */
  function Parts(s: string): (ps: seq<string>)
    ensures |ps| > 0
  {
    if s == [] then [""]
    else
      var ps, c := Parts(s[..|s| - 1]), s[|s| - 1];
      if c == '/' then ps + [""] else ps[..|ps| - 1] + [ps[|ps| - 1] + [c]]
  }

  predicate Ordinary(c: string) {
    c != "" && c != "." && c != ".." && '/' !in c
  }

  /** The stack after one more component. */
  function Enter(stack: seq<string>, c: string): seq<string> {
    if c == "" || c == "." then stack
    else if c == ".." then if stack == [] then [] else stack[..|stack| - 1]
    else stack + [c]
  }

  function Resolve(ps: seq<string>): seq<string> {
    if ps == [] then [] else Enter(Resolve(ps[..|ps| - 1]), ps[|ps| - 1])
  }

  /** The components a name stands for. */
  function Stack(s: string): seq<string> {
    Resolve(Parts(s)[1..])
  }

  function Join(stack: seq<string>): string {
    if stack == [] then "" else Join(stack[..|stack| - 1]) + "/" + stack[|stack| - 1]
  }

  predicate EndsInSlash(s: string) {
    s != "" && s[|s| - 1] == '/'
  }

  /** The canonical name. */
  function Canon(s: string): string {
    if Stack(s) == [] && EndsInSlash(s) then "/" else Join(Stack(s))
  }

  function NonEmpty(ps: seq<string>): seq<string> {
    if ps == [] then []
    else NonEmpty(ps[..|ps| - 1]) + if ps[|ps| - 1] == "" then [] else [ps[|ps| - 1]]
  }

  // ---------------------------------------------------------------- canonical names

  /** A slash-free text behind a slash is one further part. */
  lemma {:induction false} PartsAppend(s: string, w: string)
    requires '/' !in w
    ensures Parts(s + "/" + w) == Parts(s) + [w]
  {
    var t := s + "/" + w;
    if w == "" {
      assert t[..|t| - 1] == s;
    } else {
      var v := w[..|w| - 1];
      PartsAppend(s, v);
      assert t[..|t| - 1] == s + "/" + v;
      assert v + [w[|w| - 1]] == w;
    }
  }

  lemma StackAppend(s: string, w: string)
    requires '/' !in w
    ensures Stack(s + "/" + w) == Enter(Stack(s), w)
  {
    PartsAppend(s, w);
    var ps := Parts(s)[1..] + [w];
    assert (Parts(s) + [w])[1..] == ps && ps[..|ps| - 1] == Parts(s)[1..];
  }

  lemma {:induction false} NoSlashOnePart(s: string)
    requires '/' !in s
    ensures Parts(s) == [s]
  {
    if s != [] {
      NoSlashOnePart(s[..|s| - 1]);
      assert s[..|s| - 1] + [s[|s| - 1]] == s;
    }
  }

  lemma {:induction false} PartsSlashFree(s: string)
    ensures forall p :: p in Parts(s) ==> '/' !in p
  {
    if s != [] {
      PartsSlashFree(s[..|s| - 1]);
    }
  }

  lemma {:induction false} ResolveOrdinary(ps: seq<string>)
    requires forall p :: p in ps ==> '/' !in p
    ensures forall c :: c in Resolve(ps) ==> Ordinary(c)
  {
    if ps != [] {
      ResolveOrdinary(ps[..|ps| - 1]);
    }
  }

  lemma StackOrdinary(s: string)
    ensures forall c :: c in Stack(s) ==> Ordinary(c)
  {
    PartsSlashFree(s);
    ResolveOrdinary(Parts(s)[1..]);
  }

  /** Ordinary components stay as they are. */
  lemma {:induction false} ResolveSame(stack: seq<string>)
    requires forall c :: c in stack ==> Ordinary(c)
    ensures Resolve(stack) == stack && NonEmpty(stack) == stack
  {
    if stack != [] {
      assert stack[|stack| - 1] in stack;
      ResolveSame(stack[..|stack| - 1]);
      assert stack[..|stack| - 1] + [stack[|stack| - 1]] == stack;
    }
  }

  lemma {:induction false} PartsJoin(stack: seq<string>)
    requires forall c :: c in stack ==> Ordinary(c)
    ensures Parts(Join(stack)) == [""] + stack && !EndsInSlash(Join(stack))
  {
    if stack != [] {
      var init, c := stack[..|stack| - 1], stack[|stack| - 1];
      assert c in stack;
      PartsJoin(init);
      PartsAppend(Join(init), c);
      assert [""] + init + [c] == [""] + stack;
      assert Join(stack)[|Join(stack)| - 1] == c[|c| - 1];
    }
  }

  lemma {:induction false} NonEmptyConcat(a: seq<string>, b: seq<string>)
    ensures NonEmpty(a + b) == NonEmpty(a) + NonEmpty(b)
  {
    if b == [] {
      assert a + b == a;
    } else {
      assert (a + b)[..|a + b| - 1] == a + b[..|b| - 1];
      NonEmptyConcat(a, b[..|b| - 1]);
    }
  }

  /** The canonical name is a name of the same stack, and splitting it gives that stack. */
  lemma CanonKeepsStack(s: string)
    ensures Stack(Canon(s)) == Stack(s) && NonEmpty(Parts(Canon(s))) == Stack(s)
  {
    StackOrdinary(s);
    var stack := Stack(s);
    if stack == [] && EndsInSlash(s) {
      PartsAppend("", "");
      assert "" + "/" + "" == "/";
    } else {
      PartsJoin(stack);
      ResolveSame(stack);
      NonEmptyConcat([""], stack);
      assert ([""] + stack)[1..] == stack;
    }
  }

  /** Canonicalising twice is canonicalising once. */
  lemma CanonIdempotent(s: string)
    ensures Canon(Canon(s)) == Canon(s)
  {
    CanonKeepsStack(s);
    StackOrdinary(s);
    if Stack(s) != [] {
      PartsJoin(Stack(s));
    }
  }

  /**
   Two names of one stack get one canonical name, except that the root is "/" or "" after the name's last character.
   */
  lemma SameNameIff(s: string, t: string)
    ensures Canon(s) == Canon(t) <==> Stack(s) == Stack(t) && (Stack(s) == [] ==> EndsInSlash(s) == EndsInSlash(t))
  {
    CanonKeepsStack(s);
    CanonKeepsStack(t);
  }

  /** Leaving a directory again is the root, under two names. */
  lemma RootHasTwoNames(c: string)
    requires Ordinary(c)
    ensures var s := "" + "/" + c + "/" + "..";
            Stack(s) == Stack(s + "/" + "") == [] && Canon(s) == "" && Canon(s + "/" + "") == "/"
  {
    hide Parts, Resolve, Stack;
    NoSlashStack("");
    StackAppend("", c);
    StackAppend("" + "/" + c, "..");
    StackAppend("" + "/" + c + "/" + "..", "");
  }

  lemma NoSlashStack(s: string)
    requires '/' !in s
    ensures Stack(s) == []
  {
    NoSlashOnePart(s);
    assert [s][1..] == [];
  }

  /**
   What one more component does to the stack of a name.  With `NoSlashStack`, for the text before the first slash, this
   is all: every other name is a name, a slash and one more component.
   */
  lemma StackLaws(s: string, c: string)
    requires Ordinary(c)
    ensures Stack(s + "/" + c) == Stack(s) + [c]
    ensures Stack(s + "/" + c + "/" + "..") == Stack(s)
    ensures Stack(s + "/" + ".") == Stack(s) && Stack(s + "/" + "") == Stack(s)
    ensures Stack(s) == [] ==> Stack(s + "/" + "..") == []
    ensures Stack(s) != [] ==> Stack(s + "/" + "..") + [Stack(s)[|Stack(s)| - 1]] == Stack(s)
  {
    hide Parts, Resolve, Stack;
    StackAppend(s, c);
    StackAppend(s + "/" + c, "..");
    StackAppend(s, ".");
    StackAppend(s, "");
    StackAppend(s, "..");
  }

  /**
   The same on canonical names: a component is appended, entering and leaving a directory changes nothing, nor do "."
   and a further slash, below the root.
   */
  lemma CanonLaws(s: string, c: string)
    requires Ordinary(c)
    ensures Stack(s) != [] ==> Canon(s + "/" + c) == Canon(s) + "/" + c
    ensures Stack(s) == [] ==> Canon(s + "/" + c) == "/" + c
    ensures Stack(s) != [] ==> Canon(s + "/" + c + "/" + "..") == Canon(s)
    ensures Stack(s) != [] ==> Canon(s + "/" + ".") == Canon(s) && Canon(s + "/" + "") == Canon(s)
    ensures Stack(s) == [] ==> Canon(s + "/" + c + "/" + "..") == Canon(s + "/" + "..") == Canon(s + "/" + ".") == ""
    ensures Stack(s) == [] ==> Canon(s + "/" + "") == "/"
  {
    hide Canon, Stack, Join;
    StackLaws(s, c);
    CanonAppend(s, c);
    CanonAppend(s + "/" + c, "..");
    CanonAppend(s, "..");
    CanonAppend(s, ".");
    CanonAppend(s, "");
    JoinNone();
    JoinSnoc(Stack(s), c);
    CanonBelowRoot(s);
  }

  lemma CanonAppend(s: string, w: string)
    requires '/' !in w
    ensures var t := s + "/" + w; Canon(t) == if Stack(t) == [] && w == "" then "/" else Join(Stack(t))
  {
    hide Stack, Join;
    var t := s + "/" + w;
    assert t[|t| - 1] == if w == "" then '/' else w[|w| - 1];
  }

  lemma CanonBelowRoot(s: string)
    ensures Stack(s) != [] ==> Canon(s) == Join(Stack(s))
  {
  }

  lemma JoinSnoc(stack: seq<string>, c: string)
    ensures Join(stack + [c]) == Join(stack) + "/" + c
  {
    assert (stack + [c])[..|stack|] == stack;
  }

  // ---------------------------------------------------------------- the code

  predicate NoSlash(s: string, i: nat, e: nat)
    requires e <= |s|
  {
    forall k :: i <= k < e ==> s[k] != '/'
  }

  /** The first slash at or behind `i`, or the end of the name. */
  function EndOf(s: string, i: nat): (e: nat)
    requires i <= |s|
    ensures i <= e <= |s| && NoSlash(s, i, e) && (e < |s| ==> s[e] == '/')
    decreases |s| - i
  {
    if i == |s| || s[i] == '/' then i else EndOf(s, i + 1)
  }

  /** The word that starts with the slash at `i`. */
  function Word(s: string, i: nat): string
    requires i < |s|
  {
    s[i + 1..EndOf(s, i + 1)]
  }

  /** `index` holds increasing positions of slashes below `w`, and `words` what they start. */
  predicate Marks(s: string, index: seq<nat>, w: nat, words: seq<string>) {
    && |index| == |words| && w <= |s|
    && (forall k :: 0 <= k < |index| ==> index[k] < w && s[index[k]] == '/' && Word(s, index[k]) == words[k])
    && (forall j, k :: 0 <= j < k < |index| ==> index[j] < index[k])
  }

  lemma EndIs(s: string, i: nat, e: nat)
    requires i <= e <= |s| && NoSlash(s, i, e) && (e < |s| ==> s[e] == '/')
    ensures EndOf(s, i) == e
  {
  }

  /**
   The word from the slash at `w` up to `idx` is complete: it is skipped, pops or is pushed; a final slash may be the
   root.
   */
  method CloseWord(src: seq<char>, index: seq<nat>, w: nat, idx: nat) returns (next: seq<nat>)
    requires |src| == MAX_PATH && NUL in src
    requires var s := Name(src);
             && w < idx <= |s| && s[w] == '/' && NoSlash(s, w + 1, idx) && (idx < |s| ==> s[idx] == '/')
             && Marks(s, index, w, Stack(s[..w]))
    ensures var s := Name(src);
            Marks(s, next, idx, if idx == |s| && EndsInSlash(s) && Stack(s) == [] then [""] else Stack(s[..idx]))
  {
    hide Stack, EndOf, Marks, StrLen, NoSlash, Name;
    ghost var s := Name(src);
    ghost var word := s[w + 1..idx];
    NameOf(src);
    OneWord(s, w, idx);
    StackAppend(s[..w], word);
    MarkPush(s, index, w, idx, Stack(s[..w]));
    MarkPop(s, index, w, idx, Stack(s[..w]));
    Dots(word);
    assert |word| > 0 ==> word[0] == src[w + 1];
    assert |word| > 1 ==> word[1] == src[w + 2];
    assert |index| == 0 ==> Stack(s[..w]) + [word] == [word];
    var len := idx - w;
    if len == 1 {
      if src[idx] == NUL && |index| == 0 {
        next := index + [w];
      } else {
        next := index;
      }
    } else if len == 2 && src[idx - 1] == '.' {
      next := index;
    } else if len == 3 && src[idx - 1] == '.' && src[idx - 2] == '.' {
      next := if |index| > 0 then index[..|index| - 1] else index;
    } else {
      next := index + [w];
    }
  }

  lemma NameOf(src: seq<char>)
    requires NUL in src
    ensures var s := Name(src);
            |s| < |src| && src[|s|] == NUL && forall k :: 0 <= k < |s| ==> s[k] == src[k] && s[k] != NUL
  {
  }

  /** The name up to `idx` is the name up to the slash at `w`, and one slash-free word. */
  lemma OneWord(s: string, w: nat, idx: nat)
    requires w < idx <= |s| && s[w] == '/' && NoSlash(s, w + 1, idx) && (idx < |s| ==> s[idx] == '/')
    ensures var word := s[w + 1..idx]; s[..idx] == s[..w] + "/" + word && '/' !in word && Word(s, w) == word
    ensures s[..|s|] == s && (EndsInSlash(s) && idx == |s| <==> idx == |s| && idx == w + 1)
  {
    EndIs(s, w + 1, idx);
  }

  lemma Dots(word: string)
    ensures word == "." <==> |word| == 1 && word[0] == '.'
    ensures word == ".." <==> |word| == 2 && word[0] == '.' && word[1] == '.'
  {
  }

  lemma MarkPush(s: string, index: seq<nat>, w: nat, upto: nat, words: seq<string>)
    requires Marks(s, index, w, words) && w < upto <= |s| && s[w] == '/'
    ensures Marks(s, index + [w], upto, words + [Word(s, w)]) && Marks(s, index, upto, words)
  {
    hide Word;
  }

  lemma MarkPop(s: string, index: seq<nat>, w: nat, upto: nat, words: seq<string>)
    requires Marks(s, index, w, words) && w <= upto <= |s|
    ensures |index| == |words| && (words != [] ==> Marks(s, index[..|index| - 1], upto, words[..|words| - 1]))
  {
    hide Word;
  }

  lemma NothingMarked(s: string, w: nat)
    requires w <= |s| && NoSlash(s, 0, w)
    ensures Stack(s[..w]) == [] && Marks(s, [], w, [])
  {
    NoSlashStack(s[..w]);
  }

  /** canonicalize_path_name, the scan: the stack of word positions is that of the components. */
  method Scan(src: seq<char>) returns (ok: bool, index: seq<nat>)
    requires |src| == MAX_PATH && NUL in src
    ensures ok <==> ' ' !in Name(src)
    ensures ok ==> var s := Name(src);
                   Marks(s, index, |s|, if Stack(s) == [] && EndsInSlash(s) then [""] else Stack(s))
  {
    hide Stack, EndOf, Marks, StrLen;
    ghost var s := Name(src);
    index := [];
    assert s[..|s|] == s;
    var idx: nat, wordStart: int := 0, -1;
    while idx < MAX_PATH
      invariant idx <= |s| && ' ' !in s[..idx]
      invariant wordStart == -1 ==> NoSlash(s, 0, idx) && index == []
      invariant wordStart != -1 ==>
                  0 <= wordStart < idx && s[wordStart] == '/' && NoSlash(s, wordStart + 1, idx)
                  && Marks(s, index, wordStart, Stack(s[..wordStart]))
    {
      var c := src[idx];
      assert idx < |s| ==> s[idx] == c && s[..idx + 1] == s[..idx] + [c];
      if c == ' ' {
        return false, [];
      }
      if c != '/' && c != NUL {
        idx := idx + 1;
        continue;
      }
      if wordStart == -1 {
        NothingMarked(s, idx);
        if c == NUL {
          break;
        }
        wordStart := idx;
        idx := idx + 1;
        continue;
      }
      index := CloseWord(src, index, wordStart, idx);
      wordStart := idx;
      if c == NUL {
        break;
      }
      idx := idx + 1;
    }
    ok := true;
  }

  lemma StrLenIs(s: seq<char>, n: nat)
    requires n < |s| && s[n] == NUL && forall k :: 0 <= k < n ==> s[k] != NUL
    ensures NUL in s && Name(s) == s[..n]
  {
  }

  lemma {:induction false} JoinHasNoNul(words: seq<string>)
    requires forall k :: 0 <= k < |words| ==> NUL !in words[k]
    ensures NUL !in Join(words)
  {
    if words != [] {
      JoinHasNoNul(words[..|words| - 1]);
    }
  }

  /**
   What the copying loop appends for the word at `i`: the word with its slash, and the terminator if the name ends
   there.
   */
  function Copied(s: string, i: nat): string
    requires i < |s|
  {
    "/" + Word(s, i) + if EndOf(s, i + 1) == |s| then [NUL] else []
  }

  /** canonicalize_path_name, the two loops that copy the word at `start`. */
  method CopyWord(src: seq<char>, start: nat, dst: seq<char>) returns (r: seq<char>)
    requires |src| == MAX_PATH && NUL in src && start < |Name(src)| && Name(src)[start] == '/'
    ensures r == dst + Copied(Name(src), start)
  {
    hide EndOf, Name, StrLen;
    ghost var s := Name(src);
    ghost var e := EndOf(s, start + 1);
    NameOf(src);
    var wordEnd, idx := 0, start + 1;
    while idx < MAX_PATH
      invariant start + 1 <= idx <= e
    {
      if src[idx] == '/' {
        wordEnd := idx;
        break;
      } else if src[idx] == NUL {
        wordEnd := idx + 1;
        break;
      }
      idx := idx + 1;
    }
    r := dst;
    for idx1 := start to wordEnd
      invariant r == dst + src[start..idx1]
    {
      SliceNext(src, start, idx1);
      r := r + [src[idx1]];
    }
    CopiedIs(src, start, wordEnd);
  }

  lemma SliceNext(src: seq<char>, i: nat, j: nat)
    requires i <= j < |src|
    ensures src[i..j + 1] == src[i..j] + [src[j]]
  {
  }

  lemma CopiedIs(src: seq<char>, start: nat, wordEnd: nat)
    requires NUL in src && start < |Name(src)| && Name(src)[start] == '/'
    requires var e := EndOf(Name(src), start + 1); wordEnd == if e == |Name(src)| then e + 1 else e
    ensures wordEnd <= |src| && src[start..wordEnd] == Copied(Name(src), start)
  {
    hide EndOf, StrLen, NoSlash;
    var s := Name(src);
    var e := EndOf(s, start + 1);
    assert src[start..e] == "/" + Word(s, start);
  }

  /** canonicalize_path_name: refuses exactly the names with a blank, and otherwise writes the canonical name. */
  method CanonicalizePathName(src: seq<char>) returns (ok: bool, dst: seq<char>)
    requires |src| == MAX_PATH && NUL in src
    ensures ok <==> ' ' !in Name(src)
    ensures ok ==> NUL in dst && Name(dst) == Canon(Name(src))
  {
    hide Stack, EndOf, Marks, StrLen, Join, EndsInSlash;
    var index;
    dst := [];
    ok, index := Scan(src);
    if !ok {
      return;
    }
    ghost var s := Name(src);
    dst := Reform(src, index, if Stack(s) == [] && EndsInSlash(s) then [""] else Stack(s));
    JoinRoot();
  }

  lemma JoinRoot()
    ensures Join([""]) == "/"
  {
    assert [""][..0] == [];
  }

  /** canonicalize_path_name, the reform loop. */
  method Reform(src: seq<char>, index: seq<nat>, ghost words: seq<string>) returns (dst: seq<char>)
    requires |src| == MAX_PATH && NUL in src && Marks(Name(src), index, |Name(src)|, words)
    ensures NUL in dst && Name(dst) == Join(words)
  {
    hide EndOf, Join, NoSlash, StrLen;
    ghost var s := Name(src);
    dst := [];
    JoinNone();
    for k := 0 to |index|
      invariant dst == Join(words[..k]) + if k > 0 && EndOf(s, index[k - 1] + 1) == |s| then [NUL] else []
    {
      if k > 0 {
        NotLast(s, index[k - 1], index[k]);
      }
      JoinNext(words, k);
      dst := CopyWord(src, index[k], dst);
    }
    assert words[..|index|] == words;
    WordsHaveNoNul(src, index, words);
    JoinHasNoNul(words);
    StrLenIs(dst + [NUL], |Join(words)|);
    dst := dst + [NUL];
  }

  lemma JoinNone()
    ensures Join([]) == ""
  {
  }

  lemma JoinNext(words: seq<string>, k: nat)
    requires k < |words|
    ensures Join(words[..k + 1]) == Join(words[..k]) + "/" + words[k]
  {
    assert words[..k + 1][..k] == words[..k];
  }

  lemma WordsHaveNoNul(src: seq<char>, index: seq<nat>, words: seq<string>)
    requires NUL in src && Marks(Name(src), index, |Name(src)|, words)
    ensures forall k :: 0 <= k < |words| ==> NUL !in words[k]
  {
    forall k | 0 <= k < |words|
      ensures NUL !in words[k]
    {
      assert words[k] == Word(Name(src), index[k]);
    }
  }

  /** A word that starts before another slash does not reach the end of the name. */
  lemma NotLast(s: string, i: nat, j: nat)
    requires i < j < |s| && s[j] == '/'
    ensures EndOf(s, i + 1) < |s|
  {
  }

  // ---------------------------------------------------------------- split_path

  /** A C string `w` stands at position `i`. */
  predicate StringAt(a: seq<char>, i: nat, w: string) {
    i + |w| < |a| && a[i..i + |w|] == w && a[i + |w|] == NUL && NUL !in w
  }

  /** The positions hold the words, all of them below `upto`. */
  predicate Holding(a: seq<char>, starts: seq<nat>, words: seq<string>, upto: nat) {
    |starts| == |words|
    && forall k :: 0 <= k < |words| ==> StringAt(a, starts[k], words[k]) && starts[k] + |words[k]| < upto
  }

  lemma SlashAdds(s: string, e: nat)
    requires e < |s| && s[e] == '/'
    ensures NonEmpty(Parts(s[..e + 1])) == NonEmpty(Parts(s[..e]))
  {
    PartsAppend(s[..e], "");
    assert s[..e + 1] == s[..e] + "/" + "";
    NonEmptyConcat(Parts(s[..e]), [""]);
    assert NonEmpty([""]) == NonEmpty([""][..0]);
  }

  lemma WordAdds(s: string, i: nat, e: nat)
    requires i < e <= |s| && NoSlash(s, i, e) && (i == 0 || s[i - 1] == '/')
    ensures NonEmpty(Parts(s[..e])) == NonEmpty(Parts(s[..i])) + [s[i..e]]
  {
    var w := s[i..e];
    assert NonEmpty([w]) == [w] by {
      assert [w][..0] == [];
    }
    if i == 0 {
      NoSlashOnePart(s[..e]);
      assert s[..e] == w && s[..0] == "";
      assert NonEmpty([""]) == NonEmpty([""][..0]);
    } else {
      PartsAppend(s[..i - 1], w);
      assert s[..e] == s[..i - 1] + "/" + w;
      NonEmptyConcat(Parts(s[..i - 1]), [w]);
      SlashAdds(s, i - 1);
    }
  }

  /** A further word, terminated at `i + |w|`; nothing below it has been touched. */
  lemma OneMore(a: seq<char>, b: seq<char>, starts: seq<nat>, words: seq<string>, i: nat, w: string)
    requires Holding(a, starts, words, i) && |a| == |b| && StringAt(b, i, w) && forall k :: 0 <= k < i ==> b[k] == a[k]
    ensures Holding(b, starts + [i], words + [w], i + |w| + 1)
  {
    forall k | 0 <= k < |words|
      ensures StringAt(b, starts[k], words[k])
    {
      assert StringAt(a, starts[k], words[k]);
      assert a[starts[k]..starts[k] + |words[k]|] == b[starts[k]..starts[k] + |words[k]|];
    }
  }

  lemma NoneHeld(a: seq<char>, s: string)
    ensures NonEmpty(Parts(s[..0])) == [] && Holding(a, [], [], 0)
  {
    assert NonEmpty([""]) == NonEmpty([""][..0]);
  }

  lemma Wider(a: seq<char>, starts: seq<nat>, words: seq<string>, upto: nat)
    requires Holding(a, starts, words, upto)
    ensures Holding(a, starts, words, upto + 1) && Holding(a, starts, words, |a|)
  {
  }

  lemma Terminated(a: seq<char>, b: seq<char>, s: string, i: nat, e: nat)
    requires i <= e <= |s| < |a| == |b| && NUL !in s && b[e] == NUL
    requires forall k :: i <= k < e ==> b[k] == a[k] == s[k]
    ensures StringAt(b, i, s[i..e])
  {
    assert b[i..e] == s[i..e];
  }

  /** split_path: the positions of the non-empty parts, each turned into a C string in place. */
  method SplitPath(path: array<char>) returns (starts: seq<nat>)
    requires NUL in path[..]
    modifies path
    ensures Holding(path[..], starts, NonEmpty(Parts(Name(old(path[..])))), path.Length)
  {
    hide Parts, NonEmpty, StringAt, Holding, StrLen, EndOf;
    ghost var s := Name(path[..]);
    ghost var words: seq<string> := [];
    NoneHeld(path[..], s);
    starts := [];
    var ptr := 0;
    assert s[..|s|] == s;
    while path[ptr] != NUL
      invariant ptr <= |s| && (ptr == 0 || s[ptr - 1] == '/') && NUL in old(path[..]) && s == Name(old(path[..]))
      invariant forall k :: ptr <= k < path.Length ==> path[k] == old(path[..])[k]
      invariant words == NonEmpty(Parts(s[..ptr])) && Holding(path[..], starts, words, ptr)
      decreases |s| - ptr
    {
      ghost var before := path[..];
      var end := ptr;
      while path[end] != NUL && path[end] != '/'
        invariant ptr <= end <= |s| && NoSlash(s, ptr, end)
        decreases |s| - end
      {
        end := end + 1;
      }
      if end == ptr {
        SlashAdds(s, ptr);
        Wider(path[..], starts, words, ptr);
        ptr := ptr + 1;
      } else {
        WordAdds(s, ptr, end);
        ghost var word := s[ptr..end];
        words := words + [word];
        if path[end] == NUL {
          Terminated(before, before, s, ptr, end);
          OneMore(before, before, starts, words[..|words| - 1], ptr, word);
          starts := starts + [ptr];
          break;
        }
        SlashAdds(s, end);
        path[end] := NUL;
        Terminated(before, path[..], s, ptr, end);
        OneMore(before, path[..], starts, words[..|words| - 1], ptr, word);
        starts := starts + [ptr];
        ptr := end + 1;
      }
    }
    Wider(path[..], starts, words, if ptr < |s| then |s| + 1 else ptr);
  }
}
