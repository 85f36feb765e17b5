/** The logging messages of lib/main.js as templates: each is resolved against the
    arguments of the wrapped call (and, for the closing message, its result appended
    to them). */
module TemplateExamples {
  import opened Common
  import opened Text
  import opened Json
  import opened Paths
  import opened PathExamples
  import opened Templates

  /** What `OnePlaceholder` asks of the placeholder text. */
  predicate Placeholder(g: string) {
    && g != [] && '}' !in g && HasWordChar(g)
    && forall i :: 0 <= i < |g| ==> !IsLineTerminator(g[i])
  }

  lemma FieldWalk(args: seq<Value>, i: nat, f: Fields, key: string, text: string)
    requires i < |args| && args[i] == Obj(f) && Lookup(f, key) == Some(Str(text))
    ensures Walk([IntToString(i), key], Arr(args)) == Str(text)
  {
    GetArrayIndex(args, i);
    WalkTwo(IntToString(i), key, Arr(args));
  }

  lemma IndexWalk(args: seq<Value>, i: nat, text: string)
    requires i < |args| && args[i] == Str(text)
    ensures Walk([IntToString(i)], Arr(args)) == Str(text)
  {
    GetArrayIndex(args, i);
    assert Walk([IntToString(i)], Arr(args)) == Walk([], Get(Arr(args), IntToString(i)));
  }

  /** A template `a{g}c` whose path reads the string property `key` of argument `i`
      puts that string between `a` and `c`. */
  lemma StringFieldOfArgument(s: string, a: string, g: string, c: string, args: seq<Value>,
                              i: nat, f: Fields, key: string, text: string)
    requires s == a + "{" + g + "}" + c && '{' !in a && '{' !in c && Placeholder(g)
    requires Segments(g) == [IntToString(i), key]
    requires i < |args| && args[i] == Obj(f) && Lookup(f, key) == Some(Str(text))
    ensures EvaluateTemplate(s, Arr(args)) == Success(a + text + c)
  {
    OnePlaceholder(s, a, g, c, Arr(args));
    FieldWalk(args, i, f, key, text);
  }

  /** A template `a{g}c` whose path is a single index `i` of a string argument puts
      that string between `a` and `c`. */
  lemma StringArgument(s: string, a: string, g: string, c: string, args: seq<Value>, i: nat, text: string)
    requires s == a + "{" + g + "}" + c && '{' !in a && '{' !in c && Placeholder(g)
    requires Segments(g) == [IntToString(i)]
    requires i < |args| && args[i] == Str(text)
    ensures EvaluateTemplate(s, Arr(args)) == Success(a + text + c)
  {
    OnePlaceholder(s, a, g, c, Arr(args));
    IndexWalk(args, i, text);
  }

  /** A template `a{g}c` whose path reads the length of the last argument, an array,
      puts that length in decimal between `a` and `c`. */
  lemma LastLengthArgument(s: string, a: string, g: string, c: string, args: seq<Value>, last: seq<Value>)
    requires s == a + "{" + g + "}" + c && '{' !in a && '{' !in c && Placeholder(g)
    requires Segments(g) == ["-1", "length"]
    ensures EvaluateTemplate(s, Arr(args + [Arr(last)])) == Success(a + IntToString(|last|) + c)
  {
    OnePlaceholder(s, a, g, c, Arr(args + [Arr(last)]));
    LastLength(args, last);
  }

  // ---------------------------------------------------------------- sign in

  lemma SignInText(s: string, a: string, g: string, c: string)
    requires s == "Signing in as {[1].username}..."
    requires a == "Signing in as " && g == "[1].username" && c == "..."
    ensures s == a + "{" + g + "}" + c && '{' !in a && '{' !in c
  {
  }

  lemma SignInPlaceholder(g: string)
    requires g == "[1].username"
    ensures Placeholder(g)
  {
    assert IsWordChar(g[1]);
  }

  lemma SignInSplit(s: string) returns (a: string, g: string, c: string)
    requires s == "Signing in as {[1].username}..."
    ensures s == a + "{" + g + "}" + c && '{' !in a && '{' !in c && Placeholder(g)
    ensures Segments(g) == [IntToString(1), "username"]
    ensures a == "Signing in as " && c == "..."
  {
    a, g, c := "Signing in as ", "[1].username", "...";
    SignInText(s, a, g, c);
    SignInPlaceholder(g);
    SignInPathSegments(g);
    assert IntToString(1) == "1";
  }

  /** `Signing in as {[1].username}...` applied to the sign-in arguments
      `[page, credentials, ...]` names the user of the credentials. */
  lemma SignInMessage(s: string, page: Value, cred: Fields, rest: seq<Value>, user: string)
    requires s == "Signing in as {[1].username}..."
    requires Lookup(cred, "username") == Some(Str(user))
    ensures EvaluateTemplate(s, Arr([page, Obj(cred)] + rest)) == Success("Signing in as " + user + "...")
  {
    var a, g, c := SignInSplit(s);
    var args := [page, Obj(cred)] + rest;
    assert args[1] == Obj(cred);
    StringFieldOfArgument(s, a, g, c, args, 1, cred, "username", user);
  }

  // ---------------------------------------------------------------- update

  lemma UpdateText(s: string, a: string, g: string, c: string)
    requires s == "Activities updated, got {[-1].length} new activities."
    requires a == "Activities updated, got " && g == "[-1].length" && c == " new activities."
    ensures s == a + "{" + g + "}" + c && '{' !in a && '{' !in c
  {
  }

  lemma UpdatePlaceholder(g: string)
    requires g == "[-1].length"
    ensures Placeholder(g)
  {
    assert IsWordChar(g[2]);
  }

  lemma UpdateSplit(s: string) returns (a: string, g: string, c: string)
    requires s == "Activities updated, got {[-1].length} new activities."
    ensures s == a + "{" + g + "}" + c && '{' !in a && '{' !in c && Placeholder(g)
    ensures Segments(g) == ["-1", "length"]
    ensures a == "Activities updated, got " && c == " new activities."
  {
    a, g, c := "Activities updated, got ", "[-1].length", " new activities.";
    UpdateText(s, a, g, c);
    UpdatePlaceholder(g);
    UpdatePathSegments(g);
  }

  /** The closing message of the activity update reads the length of the result,
      the last element of `[...args, ret]`. */
  lemma UpdateMessage(s: string, args: seq<Value>, ret: seq<Value>)
    requires s == "Activities updated, got {[-1].length} new activities."
    ensures EvaluateTemplate(s, Arr(args + [Arr(ret)]))
         == Success("Activities updated, got " + IntToString(|ret|) + " new activities.")
  {
    var a, g, c := UpdateSplit(s);
    LastLengthArgument(s, a, g, c, args, ret);
  }

  // ---------------------------------------------------------------- writing

  /** A single plain segment such as `0` is its own path. */
  lemma PlainSegment(x: string)
    requires Plain(x) && HasWordChar(x)
    ensures Segments(x) == [x]
  {
    PlainFacts(x);
    RewriteWithoutBracket(x);
    TrimAllFixed([x]);
    assert KeepWordy([x]) == [x] + KeepWordy([]);
  }

  lemma WritingText(s: string, a: string, g: string, c: string)
    requires s == "Writing {0}..."
    requires a == "Writing " && g == "0" && c == "..."
    ensures s == a + "{" + g + "}" + c && '{' !in a && '{' !in c
  {
  }

  lemma WritingSplit(s: string) returns (a: string, g: string, c: string)
    requires s == "Writing {0}..."
    ensures s == a + "{" + g + "}" + c && '{' !in a && '{' !in c && Placeholder(g)
    ensures Segments(g) == [IntToString(0)]
    ensures a == "Writing " && c == "..."
  {
    a, g, c := "Writing ", "0", "...";
    WritingText(s, a, g, c);
    assert IsWordChar(g[0]);
    PlainSegment(g);
    assert IntToString(0) == "0";
  }

  /** `Writing {0}...` names the destination, the first argument of the write. */
  lemma WritingMessage(s: string, path: string, rest: seq<Value>)
    requires s == "Writing {0}..."
    ensures EvaluateTemplate(s, Arr([Str(path)] + rest)) == Success("Writing " + path + "...")
  {
    var a, g, c := WritingSplit(s);
    var args := [Str(path)] + rest;
    assert args[0] == Str(path);
    StringArgument(s, a, g, c, args, 0, path);
  }
}
