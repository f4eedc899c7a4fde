/** What the activity page computes from the listing (src/static/app.js):
    the display name of a participant and the number of spots left. */
module Display {
  import Roster

  /** The characters of the class `[._-]` that the local part is split on. */
  const Separators: set<char> := {'.', '_', '-'}

  /** Upper-casing of one character, restricted to ASCII letters. */
  function UpperAscii(c: char): (u: char)
    ensures 'a' <= c <= 'z' ==> 'A' <= u <= 'Z' && u as int == c as int - 32
    ensures !('a' <= c <= 'z') ==> u == c
  {
    if 'a' <= c <= 'z' then (c as int - 32) as char else c
  }

  /** `s.split(...)` at every character of `seps`: the pieces between the
      separators, in order, empty pieces included. */
  function Split(s: string, seps: set<char>): (parts: seq<string>)
    ensures |parts| >= 1
    ensures forall i, j | 0 <= i < |parts| && 0 <= j < |parts[i]| :: parts[i][j] !in seps && parts[i][j] in s
    ensures |parts[0]| <= |s| && parts[0] == s[..|parts[0]|]
    ensures |parts[0]| < |s| ==> s[|parts[0]|] in seps
  {
    if s == [] then [[]]
    else
      var rest := Split(s[1..], seps);
      if s[0] in seps then [[]] + rest
      else
        assert s[..1 + |rest[0]|] == [s[0]] + s[1..][..|rest[0]|];
        [[s[0]] + rest[0]] + rest[1..]
  }

  /** `words.join(sep)` for a one-character separator. */
  function Join(words: seq<string>, sep: char): string {
    if |words| == 0 then []
    else if |words| == 1 then words[0]
    else words[0] + [sep] + Join(words[1..], sep)
  }

  /** `filter(Boolean)` on strings: drop the empty pieces, keep the order. */
  function NonEmpty(parts: seq<string>): (r: seq<string>)
    ensures |r| <= |parts|
    ensures forall i | 0 <= i < |r| :: r[i] != []
    ensures forall p :: p in r <==> p in parts && p != []
    ensures multiset(r) == multiset(parts)[[] := 0]
    ensures Roster.IsSubsequence(r, parts)
  {
    if parts == [] then []
    else
      assert parts == [parts[0]] + parts[1..];
      if parts[0] == [] then NonEmpty(parts[1..])
    else [parts[0]] + NonEmpty(parts[1..])
  }

  /** `p.charAt(0).toUpperCase() + p.slice(1)`. */
  function Capitalize(w: string): (r: string)
    ensures |r| == |w|
    ensures w != [] ==> r[0] == UpperAscii(w[0])
    ensures forall i | 0 < i < |w| :: r[i] == w[i]
  {
    if w == [] then [] else [UpperAscii(w[0])] + w[1..]
  }

  function CapitalizeAll(ws: seq<string>): seq<string> {
    seq(|ws|, i requires 0 <= i < |ws| => Capitalize(ws[i]))
  }

  /** `email.split("@")[0]`: the text before the first `@`. */
  function LocalPart(email: string): (local: string)
    ensures '@' !in local
    ensures |local| <= |email| && local == email[..|local|]
    ensures |local| < |email| ==> email[|local|] == '@'
  {
    Split(email, {'@'})[0]
  }

  /** `local.split(/[._-]+/).filter(Boolean)`. Splitting at every separator
      and dropping the empty pieces leaves the same pieces as splitting at
      runs of separators and dropping the empty ones. */
  function Words(local: string): (ws: seq<string>)
    ensures forall k | 0 <= k < |ws| :: ws[k] != []
    ensures forall k, j | 0 <= k < |ws| && 0 <= j < |ws[k]| :: ws[k][j] !in Separators
  {
    var parts := Split(local, Separators);
    assert forall p, j | p in parts && 0 <= j < |p| :: p[j] !in Separators;
    NonEmpty(parts)
  }

  /** The joined, capitalised words, before the fallback. */
  function DisplayName(email: string): (name: string)
    ensures name == [] <==> Words(LocalPart(email)) == []
  {
    Join(CapitalizeAll(Words(LocalPart(email))), ' ')
  }

  /** `formatParticipant(email)`: the display name, or the address itself
      when the display name is empty. */
  function FormatParticipant(email: string): (shown: string)
    ensures Words(LocalPart(email)) == [] ==> shown == email
    ensures Words(LocalPart(email)) != [] ==> shown == DisplayName(email) != []
  {
    var name := DisplayName(email);
    if name == [] then email else name
  }

  /** `details.max_participants - details.participants.length`. */
  function SpotsLeft(details: Roster.Activity): (n: int)
    ensures n < 0 <==> |details.participants| > details.maxParticipants
    ensures n == 0 <==> |details.participants| == details.maxParticipants
  {
    details.maxParticipants - |details.participants|
  }

  /** `s` with every character of `seps` replaced by `c`. */
  function Replace(s: string, seps: set<char>, c: char): string {
    if s == [] then [] else [if s[0] in seps then c else s[0]] + Replace(s[1..], seps, c)
  }

  /** No leading, trailing or doubled space, and not empty. */
  predicate WellSpaced(s: string) {
    && s != []
    && s[0] != ' '
    && s[|s| - 1] != ' '
    && forall i | 0 <= i < |s| - 1 && s[i] == ' ' :: s[i + 1] != ' '
  }

  /** No character of any of `ws` is in `bad`. */
  predicate Avoids(ws: seq<string>, bad: set<char>) {
    forall k, j | 0 <= k < |ws| && 0 <= j < |ws[k]| :: ws[k][j] !in bad
  }

  // ---------------------------------------------------------------------------
  // Splitting and joining

  /** A prefix free of separators stays glued to the first piece of the rest. */
  lemma {:induction false} SplitAfterPlainPrefix(w: string, t: string, seps: set<char>)
    requires forall j | 0 <= j < |w| :: w[j] !in seps
    ensures Split(w + t, seps) == [w + Split(t, seps)[0]] + Split(t, seps)[1..]
  {
    var rest := Split(t, seps);
    if w == [] {
      assert w + t == t && w + rest[0] == rest[0];
      assert rest == [rest[0]] + rest[1..];
    } else {
      var s := w + t;
      assert s[0] == w[0] && s[1..] == w[1..] + t;
      var tail := Split(s[1..], seps);
      SplitAfterPlainPrefix(w[1..], t, seps);
      assert tail[0] == w[1..] + rest[0] && tail[1..] == rest[1..];
      assert Split(s, seps) == [[s[0]] + tail[0]] + tail[1..];
      assert [w[0]] + (w[1..] + rest[0]) == w + rest[0];
    }
  }

  /** Splitting undoes joining, for pieces that do not contain the separator. */
  lemma {:induction false} SplitJoin(ws: seq<string>, c: char)
    requires |ws| >= 1 && Avoids(ws, {c})
    ensures Split(Join(ws, c), {c}) == ws
  {
    SplitAfterPlainPrefix(ws[0], [], {c});
    assert ws[0] + [] == ws[0];
    if |ws| > 1 {
      SplitJoin(ws[1..], c);
      var t := Join(ws[1..], c);
      assert ws[0] + [c] + t == ws[0] + ([c] + t);
      SplitAfterPlainPrefix(ws[0], [c] + t, {c});
      assert ([c] + t)[1..] == t;
      assert ws == [ws[0]] + ws[1..];
    }
  }

  /** Gluing a character to the front of the first piece glues it to the
      front of the join. */
  lemma JoinGlueFirst(x: char, ws: seq<string>, c: char)
    requires |ws| >= 1
    ensures Join([[x] + ws[0]] + ws[1..], c) == [x] + Join(ws, c)
  {
    var parts := [[x] + ws[0]] + ws[1..];
    if |ws| > 1 {
      assert parts[1..] == ws[1..];
      assert Join(parts, c) == ([x] + ws[0]) + [c] + Join(ws[1..], c);
    }
  }

  /** Joining the pieces of a split with one of the separators gives back the
      text with every separator replaced by that one. */
  lemma {:induction false} JoinSplitReplaces(s: string, seps: set<char>, c: char)
    requires c in seps
    ensures Join(Split(s, seps), c) == Replace(s, seps, c)
  {
    if s != [] {
      var rest := Split(s[1..], seps);
      JoinSplitReplaces(s[1..], seps, c);
      if s[0] in seps {
        var parts: seq<string> := [[]] + rest;
        assert Join(parts, c) == [c] + Join(rest, c) by {
          assert parts[1..] == rest;
        }
      } else {
        assert Split(s, seps) == [[s[0]] + rest[0]] + rest[1..];
        JoinGlueFirst(s[0], rest, c);
      }
    }
  }

  /** Replacing a character by itself changes nothing. */
  lemma {:induction false} ReplaceSelf(s: string, c: char)
    ensures Replace(s, {c}, c) == s
  {
    if s != [] {
      ReplaceSelf(s[1..], c);
      assert s == [s[0]] + s[1..];
    }
  }

  /** With a single separator, joining the pieces of a split gives back the text. */
  lemma JoinSplit(s: string, c: char)
    ensures Join(Split(s, {c}), c) == s
  {
    JoinSplitReplaces(s, {c}, c);
    ReplaceSelf(s, c);
  }

  /** `filter(Boolean)` on strings is a `$pull` of the empty string. */
  lemma {:induction false} NonEmptyIsPull(parts: seq<string>)
    ensures NonEmpty(parts) == Roster.Pull(parts, [])
  {
    if parts != [] {
      NonEmptyIsPull(parts[1..]);
    }
  }

  /** A character of a joined string is the separator or a character of a piece. */
  lemma {:induction false} JoinAvoids(ws: seq<string>, sep: char, bad: set<char>)
    requires sep !in bad && Avoids(ws, bad)
    ensures forall i | 0 <= i < |Join(ws, sep)| :: Join(ws, sep)[i] !in bad
  {
    if |ws| > 1 {
      JoinAvoids(ws[1..], sep, bad);
      var t := Join(ws[1..], sep);
      forall i | 0 <= i < |Join(ws, sep)|
        ensures Join(ws, sep)[i] !in bad
      {
        if i < |ws[0]| {
        } else if i > |ws[0]| {
          assert Join(ws, sep)[i] == t[i - |ws[0]| - 1];
        }
      }
    }
  }

  /** Joining non-empty pieces without spaces gives a well-spaced string. */
  lemma {:induction false} JoinWellSpaced(ws: seq<string>)
    requires |ws| >= 1 && Avoids(ws, {' '})
    requires forall k | 0 <= k < |ws| :: ws[k] != []
    ensures WellSpaced(Join(ws, ' '))
  {
    if |ws| > 1 {
      JoinWellSpaced(ws[1..]);
      var w, t := ws[0], Join(ws[1..], ' ');
      var s := Join(ws, ' ');
      assert s == w + [' '] + t;
      forall i | 0 <= i < |s| - 1 && s[i] == ' '
        ensures s[i + 1] != ' '
      {
        if i > |w| {
          assert s[i] == t[i - |w| - 1] && s[i + 1] == t[i - |w|];
        }
      }
    }
  }

  // ---------------------------------------------------------------------------
  // Properties of formatParticipant

  /** The local part is everything before the first `@`. */
  lemma LocalPartBeforeAt(local: string, domain: string)
    requires '@' !in local
    ensures LocalPart(local + "@" + domain) == local
  {
    var s := local + "@" + domain;
    var p := LocalPart(s);
    assert s[|local|] == '@';
    assert forall j | 0 <= j < |local| :: s[j] == local[j] != '@';
    assert forall j | 0 <= j < |p| :: s[j] == p[j] != '@';
  }

  /** An address without `@` is all local part. */
  lemma LocalPartWithoutAt(email: string)
    requires '@' !in email
    ensures LocalPart(email) == email
  {
  }

  /** The pieces of `s` are all empty exactly when every character is a separator. */
  lemma {:induction false} SplitAllEmpty(s: string, seps: set<char>)
    ensures (forall k | 0 <= k < |Split(s, seps)| :: Split(s, seps)[k] == [])
            <==> (forall i | 0 <= i < |s| :: s[i] in seps)
  {
    if s != [] {
      SplitAllEmpty(s[1..], seps);
      var rest := Split(s[1..], seps);
      if s[0] in seps {
        assert forall k | 0 <= k < |rest| :: Split(s, seps)[k + 1] == rest[k];
        assert forall i | 1 <= i < |s| :: s[i] == s[1..][i - 1];
      } else {
        assert Split(s, seps)[0] != [];
      }
    }
  }

  /** There is no word exactly when the text is made of separators only. */
  lemma WordsEmptyIff(local: string)
    ensures Words(local) == [] <==> forall i | 0 <= i < |local| :: local[i] in Separators
  {
    var parts := Split(local, Separators);
    SplitAllEmpty(local, Separators);
    if Words(local) == [] {
      forall k | 0 <= k < |parts| ensures parts[k] == [] {
        assert parts[k] !in Words(local);
      }
    } else {
      assert Words(local)[0] in parts;
    }
  }

  /** When the local part has no word (e.g. "@x" or "._-@x") the address is
      shown unchanged; otherwise the display name is shown. */
  lemma FormatFallback(email: string)
    ensures (forall i | 0 <= i < |LocalPart(email)| :: LocalPart(email)[i] in Separators)
            ==> FormatParticipant(email) == email
    ensures Words(LocalPart(email)) != [] ==> FormatParticipant(email) == DisplayName(email) != []
  {
    WordsEmptyIff(LocalPart(email));
  }

  /** What follows the first `@` only matters through the fallback: when the
      local part has a word, the domain does not affect the result. */
  lemma FormatIgnoresDomain(local: string, domain1: string, domain2: string)
    requires '@' !in local && Words(local) != []
    ensures FormatParticipant(local + "@" + domain1) == FormatParticipant(local + "@" + domain2)
  {
    LocalPartBeforeAt(local, domain1);
    LocalPartBeforeAt(local, domain2);
  }

  /** Characters outside the ASCII lower-case letters survive upper-casing
      unchanged, so capitalising keeps any such character out. */
  lemma CapitalizeAllAvoids(ws: seq<string>, bad: set<char>)
    requires Avoids(ws, bad)
    requires forall c | c in bad :: !('A' <= c <= 'Z')
    ensures Avoids(CapitalizeAll(ws), bad)
  {
  }

  /** The characters of the words come from the text they were split from. */
  lemma WordsFromText(local: string)
    ensures forall k, j | 0 <= k < |Words(local)| && 0 <= j < |Words(local)[k]| ::
              Words(local)[k][j] !in Separators && Words(local)[k][j] in local
  {
    var parts := Split(local, Separators);
    forall k, j | 0 <= k < |Words(local)| && 0 <= j < |Words(local)[k]|
      ensures Words(local)[k][j] !in Separators && Words(local)[k][j] in local
    {
      assert Words(local)[k] in parts;
      var m :| 0 <= m < |parts| && parts[m] == Words(local)[k];
    }
  }

  /** A shown display name contains no separator and no `@`. */
  lemma FormatHasNoSeparators(email: string)
    requires Words(LocalPart(email)) != []
    ensures forall i | 0 <= i < |FormatParticipant(email)| ::
              FormatParticipant(email)[i] !in Separators + {'@'}
  {
    var local := LocalPart(email);
    var ws := Words(local);
    WordsFromText(local);
    assert '@' !in local;
    assert Avoids(ws, Separators + {'@'});
    CapitalizeAllAvoids(ws, Separators + {'@'});
    JoinAvoids(CapitalizeAll(ws), ' ', Separators + {'@'});
    FormatFallback(email);
  }

  /** For an address without spaces before the first `@`, the shown name is well spaced and its
      space-separated fields are the words, one each, with only the first
      character of each upper-cased. */
  lemma FormatFields(email: string)
    requires Words(LocalPart(email)) != [] && ' ' !in LocalPart(email)
    ensures WellSpaced(FormatParticipant(email))
    ensures var ws := Words(LocalPart(email));
            var fields := Split(FormatParticipant(email), {' '});
            && |fields| == |ws|
            && forall k | 0 <= k < |ws| ::
                 && |fields[k]| == |ws[k]|
                 && fields[k][0] == UpperAscii(ws[k][0])
                 && fields[k][1..] == ws[k][1..]
  {
    var local := LocalPart(email);
    var ws := Words(local);
    var cs := CapitalizeAll(ws);
    assert Avoids(cs, {' '}) by {
      WordsFromText(local);
      assert Avoids(ws, {' '});
      CapitalizeAllAvoids(ws, {' '});
    }
    assert FormatParticipant(email) == Join(cs, ' ');
    JoinWellSpaced(cs);
    SplitJoin(cs, ' ');
    assert Split(FormatParticipant(email), {' '}) == cs;
  }

  /** Text without a separator is a single piece. */
  lemma SplitPlain(w: string, seps: set<char>)
    requires forall j | 0 <= j < |w| :: w[j] !in seps
    ensures Split(w, seps) == [w]
  {
    SplitAfterPlainPrefix(w, [], seps);
    assert w + [] == w;
  }

  /** Text made of two separator-free pieces around one separator splits into
      those two pieces. */
  lemma SplitTwo(a: string, b: string, d: char, seps: set<char>)
    requires d in seps
    requires forall j | 0 <= j < |a| :: a[j] !in seps
    requires forall j | 0 <= j < |b| :: b[j] !in seps
    ensures Split(a + [d] + b, seps) == [a, b]
  {
    var t := [d] + b;
    assert Split(a + t, seps) == [a, b] by {
      assert Split(t, seps) == [[], b] by {
        SplitPlain(b, seps);
        assert t[1..] == b;
      }
      SplitAfterPlainPrefix(a, t, seps);
      assert a + [] == a;
      assert [[], b][1..] == [b];
    }
    assert a + [d] + b == a + t;
  }

  /** Two words around one separator are the words of that text. */
  lemma TwoWords(a: string, b: string, d: char)
    requires d in Separators && a != [] && b != []
    requires forall j | 0 <= j < |a| :: a[j] !in Separators
    requires forall j | 0 <= j < |b| :: b[j] !in Separators
    ensures Words(a + [d] + b) == [a, b]
  {
    SplitTwo(a, b, d, Separators);
    assert NonEmpty([a, b]) == [a, b];
  }

  /** The words of an address whose local part is two words around one
      separator are those two words, whatever the domain. */
  lemma TwoWordsAddress(a: string, b: string, d: char, domain: string)
    requires d in Separators && a != [] && b != []
    requires forall j | 0 <= j < |a| :: a[j] !in Separators + {'@'}
    requires forall j | 0 <= j < |b| :: b[j] !in Separators + {'@'}
    ensures Words(LocalPart(a + [d] + b + "@" + domain)) == [a, b]
  {
    var local := a + [d] + b;
    assert '@' !in local by {
      assert '@' !in a && '@' !in b;
    }
    LocalPartBeforeAt(local, domain);
    TwoWords(a, b, d);
  }

  /** An address whose local part is two words around one separator is shown
      as the two capitalised words with a space between them. */
  lemma TwoWordsShown(a: string, b: string, d: char, domain: string)
    requires d in Separators && a != [] && b != []
    requires forall j | 0 <= j < |a| :: a[j] !in Separators + {'@'}
    requires forall j | 0 <= j < |b| :: b[j] !in Separators + {'@'}
    ensures FormatParticipant(a + [d] + b + "@" + domain) == Capitalize(a) + " " + Capitalize(b)
  {
    var cs := [Capitalize(a), Capitalize(b)];
    assert Join(cs, ' ') == Capitalize(a) + " " + Capitalize(b) by {
      assert cs[1..] == [Capitalize(b)];
    }
    assert CapitalizeAll([a, b]) == cs;
    TwoWordsAddress(a, b, d, domain);
  }

  /** "jane.doe@..." is shown as its two words, capitalised, with a space between. */
  lemma JaneDoeWords(domain: string)
    ensures FormatParticipant("jane.doe@" + domain) == Capitalize("jane") + " " + Capitalize("doe")
  {
    assert "jane.doe@" + domain == "jane" + ['.'] + "doe" + "@" + domain by {
      assert "jane.doe@" == "jane" + ['.'] + "doe" + "@";
    }
    TwoWordsShown("jane", "doe", '.', domain);
  }

  /** The example the page script gives: "jane.doe@..." is shown as "Jane Doe". */
  lemma JaneDoe(domain: string)
    ensures FormatParticipant("jane.doe@" + domain) == "Jane Doe"
  {
    var first, last := Capitalize("jane"), Capitalize("doe");
    assert first + " " + last == "Jane Doe" by {
      assert first == "Jane" by {
        assert UpperAscii('j') == 'J';
        assert "jane"[1..] == "ane";
      }
      assert last == "Doe" by {
        assert UpperAscii('d') == 'D';
        assert "doe"[1..] == "oe";
      }
    }
    JaneDoeWords(domain);
  }


  // ---------------------------------------------------------------------------
  // Spots left against the roster operations

  /** A successful signup takes exactly one spot. */
  lemma SignupTakesOneSpot(c: Roster.Collection, activityName: string, email: string)
    requires Roster.Signup(c, activityName, email).response.Ok?
    ensures SpotsLeft(Roster.Signup(c, activityName, email).after[activityName].activity)
            == SpotsLeft(c[activityName].activity) - 1
  {
  }

  /** Capacity is not enforced: a full or overfull activity still accepts a
      new address, and its spots left then go below zero. */
  lemma OverbookedSignup(c: Roster.Collection, activityName: string, email: string)
    requires activityName in c && email !in c[activityName].activity.participants
    requires SpotsLeft(c[activityName].activity) <= 0
    ensures Roster.Signup(c, activityName, email).response.Ok?
    ensures SpotsLeft(Roster.Signup(c, activityName, email).after[activityName].activity) < 0
  {
  }

  /** In a duplicate-free roster, a successful unregistration frees exactly one spot. */
  lemma UnregisterFreesOneSpot(c: Roster.Collection, activityName: string, email: string)
    requires Roster.RostersDistinct(c)
    requires Roster.Unregister(c, activityName, email).response.Ok?
    ensures SpotsLeft(Roster.Unregister(c, activityName, email).after[activityName].activity)
            == SpotsLeft(c[activityName].activity) + 1
  {
    Roster.PullShrinksByOne(c[activityName].activity.participants, email);
  }
}
