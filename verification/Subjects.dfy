/** The grammar of NATS subjects. */
module Subjects {
  import opened Text

  datatype Subject = Subject(workspaceId: string, domain: string, subDomain: string,
                             entity: string, action: string, corrId: string)
  {
    function Tokens(): seq<string> {
      ["shikki", workspaceId, domain, subDomain, entity, action, corrId]
    }

    function ToText(): string {
      "shikki" + "." + (workspaceId + "." + (domain + "." + (subDomain + "." + (entity + "." + (action + "." + corrId)))))
    }
  }

  lemma JoinCons(part: string, parts: seq<string>)
    requires parts != []
    ensures Join([part] + parts, '.') == part + "." + Join(parts, '.')
  {
    assert ([part] + parts)[1..] == parts;
  }

  lemma ToTextIsJoin(s: Subject)
    ensures s.ToText() == Join(s.Tokens(), '.')
  {
    JoinCons(s.action, [s.corrId]);
    JoinCons(s.entity, [s.action, s.corrId]);
    JoinCons(s.subDomain, [s.entity, s.action, s.corrId]);
    JoinCons(s.domain, [s.subDomain, s.entity, s.action, s.corrId]);
    JoinCons(s.workspaceId, [s.domain, s.subDomain, s.entity, s.action, s.corrId]);
    JoinCons("shikki", [s.workspaceId, s.domain, s.subDomain, s.entity, s.action, s.corrId]);
  }

  /** A wire subject splits into the seven tokens it was made from exactly when none of its parts contains a dot. */
  lemma SubjectSplits(s: Subject)
    ensures Split(s.ToText(), '.') ==
            ["shikki", s.workspaceId, s.domain, s.subDomain, s.entity, s.action, s.corrId] <==>
            '.' !in s.workspaceId && '.' !in s.domain && '.' !in s.subDomain &&
            '.' !in s.entity && '.' !in s.action && '.' !in s.corrId
  {
    var t := s.Tokens();
    ToTextIsJoin(s);
    SplitJoin(t, '.');
    assert t[0] == "shikki" && t[1] == s.workspaceId && t[2] == s.domain && t[3] == s.subDomain;
    assert t[4] == s.entity && t[5] == s.action && t[6] == s.corrId;
  }

  /** A token is the last one if it has no dot and what precedes it, if anything, ends with one. */
  ghost predicate IsLastToken(subject: string, token: string) {
    '.' !in token && exists front :: subject == front + token && (front == "" || front[|front| - 1] == '.')
  }

  /** What follows the last dot, or everything if there is none. */
  method LastToken(subject: string) returns (token: string)
    ensures IsLastToken(subject, token)
  {
    var i := |subject|;
    while i > 0
      invariant 0 <= i <= |subject| && '.' !in subject[i..]
    {
      if subject[i - 1] == '.' {
        assert subject == subject[..i] + subject[i..];
        return subject[i..];
      }
      assert subject[i - 1..] == [subject[i - 1]] + subject[i..];
      i := i - 1;
    }
    assert subject[0..] == subject && subject == "" + subject;
    return subject;
  }

  /** Everything before the last dot that the format puts in. */
  function Head(s: Subject): string {
    "shikki." + s.workspaceId + "." + s.domain + "." + s.subDomain + "." + s.entity + "." + s.action
  }

  lemma HeadThenCorrId(s: Subject)
    ensures s.ToText() == Head(s) + "." + s.corrId
  {
  }

  lemma LastTokenOf(head: string, tail: string, subject: string, token: string)
    requires subject == head + "." + tail && IsLastToken(subject, token) && '.' !in tail
    ensures token == tail
  {
    var front :| subject == front + token && (front == "" || front[|front| - 1] == '.');
    assert subject[|head|] == '.';
    assert front == "" ==> front + token == token;
    assert subject == front[..|front| - 1] + "." + token;
    LastSeparator(front[..|front| - 1], token, head, tail, '.');
  }

  /** The last token of a wire subject is its correlation id exactly when that id contains no dot. */
  lemma LastTokenIsCorrId(s: Subject, token: string)
    requires IsLastToken(s.ToText(), token)
    ensures token == s.corrId <==> '.' !in s.corrId
  {
    if '.' !in s.corrId {
      HeadThenCorrId(s);
      LastTokenOf(Head(s), s.corrId, s.ToText(), token);
    }
  }
}
