/** Texts cut at separators: the specification of the four splitting loops. */
module FieldSplitting {
  import opened Text

  /** The fields between separators, empty ones included; never none. */
  function Fields(s: string, separators: set<char>): (fields: seq<string>)
    ensures fields != []
  {
    if s == "" then [""]
    else
      var rest := Fields(s[1..], separators);
      if s[0] in separators then [""] + rest else [[s[0]] + rest[0]] + rest[1..]
  }

  function WithoutEmptyEnd(fields: seq<string>): seq<string>
    requires fields != []
  {
    if fields[|fields| - 1] == "" then fields[..|fields| - 1] else fields
  }

  predicate NoneOf(p: string, separators: set<char>) {
    forall i | 0 <= i < |p| :: p[i] !in separators
  }

  /** A separator ends a field, whatever follows. */
  lemma {:induction false} FieldsAt(p: string, separator: char, rest: string, separators: set<char>)
    requires NoneOf(p, separators) && separator in separators
    ensures Fields(p + ([separator] + rest), separators) == [p] + Fields(rest, separators)
  {
    var s := p + ([separator] + rest);
    if p == "" {
      assert s[1..] == rest;
    } else {
      assert s[1..] == p[1..] + ([separator] + rest);
      FieldsAt(p[1..], separator, rest, separators);
      assert p == [p[0]] + p[1..];
    }
  }

  /** Fields are made of the characters of the text. */
  lemma {:induction false} FieldChars(s: string, separators: set<char>, i: nat, k: nat)
    requires i < |Fields(s, separators)| && k < |Fields(s, separators)[i]|
    ensures Fields(s, separators)[i][k] in s
  {
    if s != "" {
      var rest := Fields(s[1..], separators);
      if s[0] in separators {
        if i > 0 {
          FieldChars(s[1..], separators, i - 1, k);
        }
      } else if i > 0 {
        FieldChars(s[1..], separators, i, k);
      } else if k > 0 {
        FieldChars(s[1..], separators, 0, k - 1);
      }
    }
  }

  lemma {:induction false} OneField(p: string, separators: set<char>)
    requires NoneOf(p, separators)
    ensures Fields(p, separators) == [p]
  {
    if p != "" {
      OneField(p[1..], separators);
      assert p == [p[0]] + p[1..];
    }
  }

  lemma NotOneEmptyField(s: string, separators: set<char>)
    requires s != ""
    ensures Fields(s, separators) != [""]
  {
  }

  /** A separator anywhere cuts the fields in two. */
  lemma {:induction false} FieldsJoin(s: string, separator: char, rest: string, separators: set<char>)
    requires separator in separators
    ensures Fields(s + ([separator] + rest), separators) == Fields(s, separators) + Fields(rest, separators)
  {
    var whole := s + ([separator] + rest);
    if s == "" {
      assert whole[1..] == rest;
    } else {
      assert whole[1..] == s[1..] + ([separator] + rest);
      FieldsJoin(s[1..], separator, rest, separators);
    }
  }

  /** A separator that does not occur may as well not be one. */
  lemma {:induction false} FieldsWithout(s: string, separators: set<char>, fewer: set<char>)
    requires forall i | 0 <= i < |s| :: s[i] in separators <==> s[i] in fewer
    ensures Fields(s, separators) == Fields(s, fewer)
  {
    if s != "" {
      FieldsWithout(s[1..], separators, fewer);
    }
  }

  /** Text without separators only extends the first field of what follows. */
  lemma {:induction false} FieldsAfter(p: string, s: string, separators: set<char>)
    requires NoneOf(p, separators)
    ensures Fields(p + s, separators)[0] == p + Fields(s, separators)[0]
    ensures Fields(p + s, separators)[1..] == Fields(s, separators)[1..]
  {
    if p == "" {
      assert p + s == s;
    } else {
      assert (p + s)[1..] == p[1..] + s;
      FieldsAfter(p[1..], s, separators);
      assert p == [p[0]] + p[1..];
    }
  }

  lemma FirstIsKept(fields: seq<string>)
    requires fields != [] && fields[0] != ""
    ensures WithoutEmptyEnd(fields) != [] && WithoutEmptyEnd(fields)[0] == fields[0]
  {
  }

  /** One turn of a splitting loop that has `done` fields and stands at `start`. */
  lemma FieldStep(done: seq<string>, s: string, start: nat, separators: set<char>)
    requires start <= |s|
    ensures var end := Find(s, separators, start);
            done + Fields(s[start..], separators) ==
            if end == |s| then done + [s[start..]]
            else (done + [s[start..end]]) + Fields(s[end + 1..], separators)
  {
    var end := Find(s, separators, start);
    if end == |s| {
      OneField(s[start..], separators);
    } else {
      var field, rest := s[start..end], s[end + 1..];
      RejoinFrom(s, start, end);
      FieldsAt(field, s[end], rest, separators);
      AppendOne(done, field, Fields(rest, separators));
    }
  }

  lemma RejoinFrom(s: string, start: nat, k: nat)
    requires start <= k < |s|
    ensures s[start..] == s[start..k] + ([s[k]] + s[k + 1..])
  {
  }

  lemma DropEmptyEnd(done: seq<string>, last: string)
    ensures WithoutEmptyEnd(done + [last]) == if last == "" then done else done + [last]
  {
    assert (done + [last])[..|done|] == done;
  }

  lemma KeepFront(front: seq<string>, rest: seq<string>)
    requires rest != []
    ensures WithoutEmptyEnd(front + rest) == front + WithoutEmptyEnd(rest)
  {
    assert (front + rest)[..|front| + |rest| - 1] == front + rest[..|rest| - 1];
  }
}
