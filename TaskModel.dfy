/** The value-level part of the task manager: the task record, the text
    trimming applied to user input, and the three pure list computations
    the handlers hand to the component state (append, filter by id,
    replace-by-id). */
module TaskModel {

  datatype Option<+T> = None | Some(value: T)

  /** One task record as the component stores it. `id` is the creation
      timestamp in milliseconds, `createdAt` the creation time as an
      ISO 8601 string. Category and priority are free-form strings: the
      store never checks them against the choices the form offers. */
  datatype Task = Task(
    id: int,
    text: string,
    category: string,
    priority: string,
    dueDate: string,
    createdAt: string)

  /** The edit buffer. `id` is `None` where the source holds `null`.
      Opening the editor spreads the whole task into the buffer, so the
      buffer also carries the task's `createdAt`; saving never reads it. */
  datatype EditBuffer = EditBuffer(
    id: Option<int>,
    text: string,
    category: string,
    priority: string,
    dueDate: string,
    createdAt: Option<string>)

  /** The buffer the component starts with and returns to after a save. */
  const EmptyEdit := EditBuffer(None, "", "", "", "", None)

  // ---------------------------------------------------------------------
  // Trimming

  /** The characters that ECMAScript's String.prototype.trim removes: the
      WhiteSpace and LineTerminator code points. All lie in the Basic
      Multilingual Plane, so trimming UTF-16 code units and trimming code
      points agree. */
  predicate IsWhitespace(c: char) {
    var n := c as int;
    n == 0x09 || n == 0x0A || n == 0x0B || n == 0x0C || n == 0x0D ||
    n == 0x20 || n == 0xA0 || n == 0x1680 ||
    (0x2000 <= n <= 0x200A) ||
    n == 0x2028 || n == 0x2029 || n == 0x202F || n == 0x205F ||
    n == 0x3000 || n == 0xFEFF
  }

  /** Empty or made only of whitespace. */
  predicate IsBlank(s: string) {
    forall i :: 0 <= i < |s| ==> IsWhitespace(s[i])
  }

  /** Drops leading whitespace. */
  function TrimStart(s: string): string {
    if s != [] && IsWhitespace(s[0]) then TrimStart(s[1..]) else s
  }

  /** Drops trailing whitespace. */
  function TrimEnd(s: string): string {
    if s != [] && IsWhitespace(s[|s| - 1]) then TrimEnd(s[..|s| - 1]) else s
  }

  /** A string with no whitespace at either end. */
  predicate IsTrimmed(s: string) {
    s == [] || (!IsWhitespace(s[0]) && !IsWhitespace(s[|s| - 1]))
  }

  /** String.prototype.trim: the WhiteSpace and LineTerminator code points
      removed from both ends. TrimSpec and TrimUnique pin it down fully. */
  function Trim(s: string): (r: string)
    ensures |r| <= |s| && IsTrimmed(r)
  {
    TrimStartSpec(s);
    TrimEndSpec(TrimStart(s));
    TrimEnd(TrimStart(s))
  }

  /** TrimStart keeps the suffix of `s` that starts at its first
      non-whitespace character. */
  lemma {:induction false} TrimStartSpec(s: string)
    ensures var r := TrimStart(s);
      |r| <= |s| && r == s[|s| - |r|..] &&
      (forall i :: 0 <= i < |s| - |r| ==> IsWhitespace(s[i])) &&
      (r != [] ==> !IsWhitespace(r[0]))
  {
    if s != [] && IsWhitespace(s[0]) {
      TrimStartSpec(s[1..]);
      var r := TrimStart(s);
      forall i | 0 < i < |s| - |r| ensures IsWhitespace(s[i]) {
        assert s[i] == s[1..][i - 1];
      }
    }
  }

  /** TrimEnd keeps the prefix of `s` that ends at its last non-whitespace
      character. */
  lemma {:induction false} TrimEndSpec(s: string)
    ensures var r := TrimEnd(s);
      |r| <= |s| && r == s[..|r|] &&
      (forall i :: |r| <= i < |s| ==> IsWhitespace(s[i])) &&
      (r != [] ==> !IsWhitespace(r[|r| - 1]))
  {
    if s != [] && IsWhitespace(s[|s| - 1]) {
      var s' := s[..|s| - 1];
      TrimEndSpec(s');
      var r := TrimEnd(s);
      assert r == s'[..|r|];
      forall i | |r| <= i < |s| - 1 ensures IsWhitespace(s[i]) {
        assert s[i] == s'[i];
      }
    }
  }

  /** Trim keeps exactly the middle of `s`: it is empty exactly when `s` is
      blank, it has no whitespace at either end, and it is the slice of `s`
      that starts after the leading whitespace run `s[..k]` (the character
      at `k`, if any, is not whitespace) and is followed only by whitespace. */
  lemma TrimSpec(s: string)
    ensures Trim(s) == [] <==> IsBlank(s)
    ensures IsTrimmed(Trim(s))
    ensures var k := |s| - |TrimStart(s)|;
      0 <= k && k + |Trim(s)| <= |s| &&
      Trim(s) == s[k..k + |Trim(s)|] &&
      (forall i :: 0 <= i < k ==> IsWhitespace(s[i])) &&
      (k < |s| ==> !IsWhitespace(s[k])) &&
      (forall i :: k + |Trim(s)| <= i < |s| ==> IsWhitespace(s[i]))
  {
    var t := TrimStart(s);
    var k := |s| - |t|;
    var r := TrimEnd(t);
    TrimStartSpec(s);
    TrimEndSpec(t);
    assert t == s[k..];
    assert r == t[..|r|];
    assert s[k..][..|r|] == s[k..k + |r|];
    forall i | k + |r| <= i < |s| ensures IsWhitespace(s[i]) {
      assert s[i] == t[i - k];
    }
    if t != [] {
      assert s[k] == t[0];
    }
    if r != [] {
      assert r[0] == t[0];
    }
  }

  lemma {:induction false} TrimStartPastBlank(a: string, m: string)
    requires IsBlank(a)
    requires m == [] || !IsWhitespace(m[0])
    ensures TrimStart(a + m) == m
  {
    if a != [] {
      assert (a + m)[1..] == a[1..] + m;
      TrimStartPastBlank(a[1..], m);
    } else {
      assert a + m == m;
    }
  }

  lemma {:induction false} TrimEndPastBlank(m: string, b: string)
    requires IsBlank(b)
    requires m == [] || !IsWhitespace(m[|m| - 1])
    ensures TrimEnd(m + b) == m
  {
    if b != [] {
      var b' := b[..|b| - 1];
      assert (m + b)[..|m + b| - 1] == m + b';
      TrimEndPastBlank(m, b');
    } else {
      assert m + b == m;
    }
  }

  /** Trim is determined by the shape of its input: whatever whitespace
      surrounds a trimmed core, trimming gives back exactly that core. */
  lemma TrimUnique(a: string, m: string, b: string)
    requires IsBlank(a) && IsBlank(b) && IsTrimmed(m)
    ensures Trim(a + m + b) == m
  {
    if m == [] {
      assert a + m + b == a + b;
      TrimSpec(a + b);
      assert IsBlank(a + b) by {
        forall i | 0 <= i < |a + b| ensures IsWhitespace((a + b)[i]) {
          if i < |a| { assert (a + b)[i] == a[i]; } else { assert (a + b)[i] == b[i - |a|]; }
        }
      }
    } else {
      assert a + m + b == a + (m + b);
      assert (m + b)[0] == m[0];
      TrimStartPastBlank(a, m + b);
      TrimEndPastBlank(m, b);
    }
  }

  /** Trimming twice is trimming once. The call records the reason (a trim
      is trimmed); Dafny also finds it by unfolding TrimStart and TrimEnd
      once. */
  lemma TrimIdempotent(s: string)
    ensures Trim(Trim(s)) == Trim(s)
  {
    TrimOfTrimmed(Trim(s));
  }

  /** A string already trimmed is its own trim: the case of TrimUnique with
      no surrounding whitespace. The call records the reason; Dafny also
      finds it by unfolding TrimStart and TrimEnd once. */
  lemma TrimOfTrimmed(s: string)
    requires IsTrimmed(s)
    ensures Trim(s) == s
  {
    assert [] + s + [] == s;
    TrimUnique([], s, []);
  }

  // ---------------------------------------------------------------------
  // Creating a task

  /** The record that adding a task appends: the trimmed input text, the
      selected category, priority and due date, and the two clock values. */
  function NewTask(input: string, category: string, priority: string, dueDate: string,
                   now: int, nowIso: string): (t: Task)
    ensures t.id == now && t.createdAt == nowIso
    ensures t.text == Trim(input) && IsTrimmed(t.text)
    ensures t.text == [] <==> IsBlank(input)
    ensures t.category == category && t.priority == priority && t.dueDate == dueDate
  {
    TrimSpec(input);
    Task(now, Trim(input), category, priority, dueDate, nowIso)
  }

  // ---------------------------------------------------------------------
  // Deleting: keep every task whose id differs

  /** `tasks.filter(task => task.id !== id)`. */
  function WithoutId(tasks: seq<Task>, id: int): (r: seq<Task>)
    ensures |r| <= |tasks|
  {
    if tasks == [] then []
    else if tasks[0].id != id then [tasks[0]] + WithoutId(tasks[1..], id)
    else WithoutId(tasks[1..], id)
  }

  /** Deleting keeps exactly the tasks whose id differs from `id`. */
  lemma {:induction false} WithoutIdMembers(tasks: seq<Task>, id: int)
    ensures forall t :: t in WithoutId(tasks, id) <==> t in tasks && t.id != id
  {
    if tasks != [] {
      WithoutIdMembers(tasks[1..], id);
      assert tasks == [tasks[0]] + tasks[1..];
    }
  }

  /** How many tasks carry the given id. */
  function CountId(tasks: seq<Task>, id: int): nat {
    if tasks == [] then 0
    else (if tasks[0].id == id then 1 else 0) + CountId(tasks[1..], id)
  }

  /** Deleting shortens the list by exactly the number of tasks that carry
      the id. */
  lemma {:induction false} WithoutIdLength(tasks: seq<Task>, id: int)
    ensures |WithoutId(tasks, id)| == |tasks| - CountId(tasks, id)
  {
    if tasks != [] {
      WithoutIdLength(tasks[1..], id);
    }
  }

  /** Filtering distributes over concatenation. */
  lemma {:induction false} WithoutIdConcat(a: seq<Task>, b: seq<Task>, id: int)
    ensures WithoutId(a + b, id) == WithoutId(a, id) + WithoutId(b, id)
  {
    if a == [] {
      assert a + b == b;
    } else {
      assert (a + b)[0] == a[0];
      assert (a + b)[1..] == a[1..] + b;
      WithoutIdConcat(a[1..], b, id);
    }
  }

  /** A kept task at position `i` lands at position `i` minus the number
      of deleted tasks before it. */
  lemma WithoutIdPosition(tasks: seq<Task>, id: int, i: int)
    requires 0 <= i < |tasks| && tasks[i].id != id
    ensures var p := i - CountId(tasks[..i], id);
      0 <= p < |WithoutId(tasks, id)| && WithoutId(tasks, id)[p] == tasks[i]
  {
    assert tasks == tasks[..i] + ([tasks[i]] + tasks[i + 1..]);
    WithoutIdConcat(tasks[..i], [tasks[i]] + tasks[i + 1..], id);
    assert ([tasks[i]] + tasks[i + 1..])[1..] == tasks[i + 1..];
    WithoutIdLength(tasks[..i], id);
  }

  /** Deleting keeps the relative order of the tasks it keeps: a task kept
      from position `i` appears strictly before one kept from a later
      position `j`, each at its position minus the deleted tasks before
      it. */
  lemma WithoutIdKeepsOrder(tasks: seq<Task>, id: int, i: int, j: int)
    requires 0 <= i < j < |tasks| && tasks[i].id != id && tasks[j].id != id
    ensures var r := WithoutId(tasks, id);
      var p, q := i - CountId(tasks[..i], id), j - CountId(tasks[..j], id);
      0 <= p < q < |r| && r[p] == tasks[i] && r[q] == tasks[j]
  {
    WithoutIdPosition(tasks, id, i);
    WithoutIdPosition(tasks, id, j);
    assert tasks[..j] == tasks[..i] + [tasks[i]] + tasks[i + 1..j];
    WithoutIdConcat(tasks[..i] + [tasks[i]], tasks[i + 1..j], id);
    WithoutIdConcat(tasks[..i], [tasks[i]], id);
    WithoutIdLength(tasks[..i], id);
    WithoutIdLength(tasks[..j], id);
  }

  /** Deleting an id that no task carries leaves the list as it was. */
  lemma {:induction false} WithoutIdAbsent(tasks: seq<Task>, id: int)
    requires forall t :: t in tasks ==> t.id != id
    ensures WithoutId(tasks, id) == tasks
  {
    if tasks != [] {
      WithoutIdAbsent(tasks[1..], id);
      assert [tasks[0]] + tasks[1..] == tasks;
    }
  }

  /** Deleting the same id twice gives the list that deleting it once
      gives. */
  lemma {:induction false} WithoutIdIdempotent(tasks: seq<Task>, id: int)
    ensures WithoutId(WithoutId(tasks, id), id) == WithoutId(tasks, id)
  {
    WithoutIdMembers(tasks, id);
    WithoutIdAbsent(WithoutId(tasks, id), id);
  }

  // ---------------------------------------------------------------------
  // Saving an edit: replace the tasks whose id matches the buffer's

  /** Whether a task is the one the edit buffer refers to; a `null` buffer
      id never equals a numeric task id. */
  predicate Matches(t: Task, id: Option<int>) {
    id == Some(t.id)
  }

  /** `tasks.map(task => task.id === id ? {...task, text, category,
      priority, dueDate} : task)`. */
  function EditMatching(tasks: seq<Task>, id: Option<int>, text: string,
                        category: string, priority: string, dueDate: string): (r: seq<Task>)
    ensures |r| == |tasks|
  {
    if tasks == [] then []
    else
      var t := tasks[0];
      var t' := if Matches(t, id) then t.(text := text, category := category,
                                           priority := priority, dueDate := dueDate)
                else t;
      [t'] + EditMatching(tasks[1..], id, text, category, priority, dueDate)
  }

  /** Saving an edit keeps the length and the order: each position holds
      the task that was there, with id and creation time kept, and with the
      new text, category, priority and due date exactly when its id
      matches. */
  lemma {:induction false} EditMatchingAt(tasks: seq<Task>, id: Option<int>, text: string,
                                          category: string, priority: string, dueDate: string,
                                          k: int)
    requires 0 <= k < |tasks|
    ensures var r := EditMatching(tasks, id, text, category, priority, dueDate);
      |r| == |tasks| &&
      r[k].id == tasks[k].id && r[k].createdAt == tasks[k].createdAt &&
      (Matches(tasks[k], id) ==>
        r[k].text == text && r[k].category == category &&
        r[k].priority == priority && r[k].dueDate == dueDate) &&
      (!Matches(tasks[k], id) ==> r[k] == tasks[k])
  {
    if k > 0 {
      EditMatchingAt(tasks[1..], id, text, category, priority, dueDate, k - 1);
    }
  }

  /** EditMatchingAt for every position at once. */
  lemma {:induction false} EditMatchingSpec(tasks: seq<Task>, id: Option<int>, text: string,
                         category: string, priority: string, dueDate: string)
    ensures var r := EditMatching(tasks, id, text, category, priority, dueDate);
      && |r| == |tasks|
      && (forall k :: 0 <= k < |r| ==> r[k].id == tasks[k].id && r[k].createdAt == tasks[k].createdAt)
      && (forall k :: 0 <= k < |r| && Matches(tasks[k], id) ==>
            r[k].text == text && r[k].category == category &&
            r[k].priority == priority && r[k].dueDate == dueDate)
      && (forall k :: 0 <= k < |r| && !Matches(tasks[k], id) ==> r[k] == tasks[k])
  {
    forall k | 0 <= k < |tasks| {
      EditMatchingAt(tasks, id, text, category, priority, dueDate, k);
    }
  }

  /** Saving an edit for an id no task carries leaves the list as it was. */
  lemma {:induction false} EditMatchingAbsent(tasks: seq<Task>, id: Option<int>, text: string,
                                              category: string, priority: string, dueDate: string)
    requires forall t :: t in tasks ==> !Matches(t, id)
    ensures EditMatching(tasks, id, text, category, priority, dueDate) == tasks
  {
    if tasks != [] {
      EditMatchingAbsent(tasks[1..], id, text, category, priority, dueDate);
      assert [tasks[0]] + tasks[1..] == tasks;
    }
  }

  /** Saving the same edit twice gives the list that saving it once gives. */
  lemma {:induction false} EditMatchingIdempotent(tasks: seq<Task>, id: Option<int>, text: string,
                               category: string, priority: string, dueDate: string)
    ensures var once := EditMatching(tasks, id, text, category, priority, dueDate);
      EditMatching(once, id, text, category, priority, dueDate) == once
  {
    var once := EditMatching(tasks, id, text, category, priority, dueDate);
    var twice := EditMatching(once, id, text, category, priority, dueDate);
    forall k | 0 <= k < |tasks| ensures twice[k] == once[k] {
      EditMatchingAt(tasks, id, text, category, priority, dueDate, k);
      EditMatchingAt(once, id, text, category, priority, dueDate, k);
    }
  }

  // ---------------------------------------------------------------------
  // Invariants of the list that the handlers keep

  /** No two tasks share an id. */
  predicate UniqueIds(tasks: seq<Task>) {
    forall i, j :: 0 <= i < j < |tasks| ==> tasks[i].id != tasks[j].id
  }

  /** Every task's text is non-empty and has no whitespace at either end:
      what adding and saving store. */
  predicate TextsTrimmed(tasks: seq<Task>) {
    forall i :: 0 <= i < |tasks| ==> tasks[i].text != [] && IsTrimmed(tasks[i].text)
  }

  /** Appending a task whose id is new keeps the ids unique; the clock
      alone does not promise that the id is new. */
  lemma AppendKeepsUniqueIds(tasks: seq<Task>, t: Task)
    requires UniqueIds(tasks)
    requires forall u :: u in tasks ==> u.id != t.id
    ensures UniqueIds(tasks + [t])
  {
    var r := tasks + [t];
    forall i, j | 0 <= i < j < |r| ensures r[i].id != r[j].id {
      if j == |tasks| {
        assert r[i] in tasks;
      }
    }
  }

  /** Deleting keeps the ids unique. */
  lemma {:induction false} WithoutIdKeepsUniqueIds(tasks: seq<Task>, id: int)
    requires UniqueIds(tasks)
    ensures UniqueIds(WithoutId(tasks, id))
  {
    if tasks != [] {
      var rest := tasks[1..];
      assert UniqueIds(rest) by {
        forall i, j | 0 <= i < j < |rest| ensures rest[i].id != rest[j].id {
          assert rest[i] == tasks[i + 1] && rest[j] == tasks[j + 1];
        }
      }
      WithoutIdKeepsUniqueIds(rest, id);
      if tasks[0].id != id {
        var r' := WithoutId(rest, id);
        var r := [tasks[0]] + r';
        WithoutIdMembers(rest, id);
        forall i, j | 0 <= i < j < |r| ensures r[i].id != r[j].id {
          if i == 0 {
            assert r[j] == r'[j - 1] && r[j] in rest;
            var m :| 0 <= m < |rest| && rest[m] == r[j];
            assert tasks[m + 1] == r[j];
          } else {
            assert r[i] == r'[i - 1] && r[j] == r'[j - 1];
          }
        }
      }
    }
  }

  /** Saving an edit keeps the ids unique. */
  lemma EditMatchingKeepsUniqueIds(tasks: seq<Task>, id: Option<int>, text: string,
                                   category: string, priority: string, dueDate: string)
    requires UniqueIds(tasks)
    ensures UniqueIds(EditMatching(tasks, id, text, category, priority, dueDate))
  {
    var r := EditMatching(tasks, id, text, category, priority, dueDate);
    forall i, j | 0 <= i < j < |r| ensures r[i].id != r[j].id {
      EditMatchingAt(tasks, id, text, category, priority, dueDate, i);
      EditMatchingAt(tasks, id, text, category, priority, dueDate, j);
    }
  }

  /** Adding a non-blank input keeps every text trimmed and non-empty. */
  lemma AppendKeepsTextsTrimmed(tasks: seq<Task>, input: string, category: string,
                                priority: string, dueDate: string, now: int, nowIso: string)
    requires TextsTrimmed(tasks) && !IsBlank(input)
    ensures TextsTrimmed(tasks + [NewTask(input, category, priority, dueDate, now, nowIso)])
  {
    var r := tasks + [NewTask(input, category, priority, dueDate, now, nowIso)];
    TrimSpec(input);
    forall i | 0 <= i < |r| ensures r[i].text != [] && IsTrimmed(r[i].text) {
      if i < |tasks| { assert r[i] == tasks[i]; }
    }
  }

  /** Deleting keeps every text trimmed and non-empty. */
  lemma WithoutIdKeepsTextsTrimmed(tasks: seq<Task>, id: int)
    requires TextsTrimmed(tasks)
    ensures TextsTrimmed(WithoutId(tasks, id))
  {
    var r := WithoutId(tasks, id);
    WithoutIdMembers(tasks, id);
    forall i | 0 <= i < |r| ensures r[i].text != [] && IsTrimmed(r[i].text) {
      assert r[i] in tasks;
    }
  }

  /** Saving a non-blank edit, trimmed, keeps every text trimmed and
      non-empty. */
  lemma EditMatchingKeepsTextsTrimmed(tasks: seq<Task>, id: Option<int>, input: string,
                                      category: string, priority: string, dueDate: string)
    requires TextsTrimmed(tasks) && !IsBlank(input)
    ensures TextsTrimmed(EditMatching(tasks, id, Trim(input), category, priority, dueDate))
  {
    var r := EditMatching(tasks, id, Trim(input), category, priority, dueDate);
    TrimSpec(input);
    forall i | 0 <= i < |r| ensures r[i].text != [] && IsTrimmed(r[i].text) {
      EditMatchingAt(tasks, id, Trim(input), category, priority, dueDate, i);
    }
  }
}
