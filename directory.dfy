/**
 * The user directory and the process templates read by "Start Request",
 * and the resolution of a template's approver names to user ids
 * (the first loop of the approver-sequencing block of page_start_request).
 */
module Directory {
  import opened Wrappers

  type UserId = string

  /** A row of the users table as get_user_by_name returns it: (id, name, role). */
  datatype User = User(id: UserId, name: string, role: string)

  /** The demo users seeded into an empty users table (e-mail column dropped). */
  const SeedUsers: seq<User> := [
    User("u-admin", "Admin User", "Admin"),
    User("u-approver", "Aisha Approver", "Approver"),
    User("u-contrib", "Omar Contributor", "Contributor"),
    User("u-view", "Vera Viewer", "Viewer"),
    User("u-englead", "Engineering Lead", "Approver"),
    User("u-qarev", "QA Reviewer", "Approver"),
    User("u-engmgr", "Engineering Manager", "Approver"),
    User("u-legal", "Legal Counsel", "Approver"),
    User("u-proclead", "Procurement Lead", "Approver"),
    User("u-procmgr", "Procurement Manager", "Approver"),
    User("u-deptowner", "Department Owner", "Approver"),
    User("u-hrappr", "HR Approver", "Approver")
  ]

  /** Each process template lists its approvers by user name, in approval order. */
  const ProcessTemplates: map<string, seq<string>> := map[
    "Engineering Drawing" := ["Engineering Lead", "QA Reviewer", "Engineering Manager"],
    "Policy Update" := ["Department Owner", "HR Approver"],
    "Supplier Contract" := ["Procurement Lead", "Legal Counsel", "Procurement Manager"]
  ]

  /** Position of the first user called `name`, or |users| when nobody is. */
  function FirstWithName(users: seq<User>, name: string): (k: nat)
    ensures k <= |users|
    ensures k < |users| ==> users[k].name == name
    ensures forall j :: 0 <= j < k ==> users[j].name != name
  {
    if users == [] then 0
    else if users[0].name == name then 0
    else 1 + FirstWithName(users[1..], name)
  }

  /**
   * get_user_by_name: the first user with that display name, if any.
   * (The SQL query answers with one arbitrary match; directory order stands in for it.)
   */
  function LookupByName(users: seq<User>, name: string): (u: Option<User>)
    ensures u.Some? ==> u.value in users && u.value.name == name
    ensures u.None? <==> forall v :: v in users ==> v.name != name
  {
    var k := FirstWithName(users, name);
    if k < |users| then Some(users[k]) else None
  }

  /** The user ids of the names that resolve, in name order; unresolved names are dropped. */
  function Resolve(users: seq<User>, names: seq<string>): (ids: seq<UserId>)
    ensures |ids| <= |names|
  {
    if names == [] then []
    else
      var last := names[|names| - 1];
      Resolve(users, names[..|names| - 1]) +
      (match LookupByName(users, last) case Some(u) => [u.id] case None => [])
  }

  /** Resolving a concatenation resolves each part in turn: order is kept and nothing is merged. */
  lemma {:induction false} ResolveConcat(users: seq<User>, a: seq<string>, b: seq<string>)
    ensures Resolve(users, a + b) == Resolve(users, a) + Resolve(users, b)
  {
    if b == [] {
      assert a + b == a;
    } else {
      var b' := b[..|b| - 1];
      assert (a + b)[..|a + b| - 1] == a + b';
      assert (a + b)[|a + b| - 1] == b[|b| - 1];
      ResolveConcat(users, a, b');
    }
  }

  /** A single name contributes its user's id when it resolves and nothing when it does not. */
  lemma ResolveSingle(users: seq<User>, name: string)
    ensures LookupByName(users, name).Some? ==> Resolve(users, [name]) == [LookupByName(users, name).value.id]
    ensures LookupByName(users, name).None? ==> Resolve(users, [name]) == []
  {
    assert [name][..0] == [];
  }

  /** When every name resolves, there is one id per name, in template order. */
  lemma {:induction false} ResolveAllFound(users: seq<User>, names: seq<string>)
    requires forall i :: 0 <= i < |names| ==> LookupByName(users, names[i]).Some?
    ensures |Resolve(users, names)| == |names|
    ensures forall i :: 0 <= i < |names| ==> Resolve(users, names)[i] == LookupByName(users, names[i]).value.id
  {
    if names != [] {
      var init := names[..|names| - 1];
      ResolveAllFound(users, init);
      var last := LookupByName(users, names[|names| - 1]).value.id;
      assert Resolve(users, names) == Resolve(users, init) + [last];
      forall i | 0 <= i < |names|
        ensures Resolve(users, names)[i] == LookupByName(users, names[i]).value.id
      {
        if i < |init| {
          assert names[i] == init[i];
        }
      }
    }
  }

  /** Every resolved id belongs to a directory user whose name is one of the template's names. */
  lemma {:induction false} ResolveSound(users: seq<User>, names: seq<string>)
    ensures forall id :: id in Resolve(users, names) ==>
      exists u :: u in users && u.id == id && u.name in names
  {
    if names != [] {
      var init := names[..|names| - 1];
      ResolveSound(users, init);
      forall id | id in Resolve(users, names)
        ensures exists u :: u in users && u.id == id && u.name in names
      {
        if id in Resolve(users, init) {
          var u :| u in users && u.id == id && u.name in init;
          assert u.name in names;
        } else {
          var u := LookupByName(users, names[|names| - 1]).value;
          assert u in users && u.id == id && u.name in names;
        }
      }
    }
  }

  /** The seed users are kept in sync with the templates: every template name resolves. */
  lemma SeedTemplatesResolve(process: string)
    requires process in ProcessTemplates
    ensures |Resolve(SeedUsers, ProcessTemplates[process])| == |ProcessTemplates[process]|
  {
    var names := ProcessTemplates[process];
    // the position in SeedUsers of each template name, template by template
    var at: seq<nat> :=
      if process == "Engineering Drawing" then [4, 5, 6]
      else if process == "Policy Update" then [10, 11]
      else [8, 7, 9];
    assert |at| == |names|;
    forall i | 0 <= i < |names| ensures LookupByName(SeedUsers, names[i]).Some? {
      assert SeedUsers[at[i]].name == names[i];
    }
    ResolveAllFound(SeedUsers, names);
  }

  /**
   * The loop that builds the assignee list of a new request: one lookup per
   * template name, appending the id of each user found.
   */
  method ResolveAssignees(users: seq<User>, names: seq<string>) returns (assignees: seq<UserId>)
    ensures assignees == Resolve(users, names)
  {
    assignees := [];
    var i := 0;
    while i < |names|
      invariant 0 <= i <= |names|
      invariant assignees == Resolve(users, names[..i])
    {
      var u := LookupByName(users, names[i]);
      assert names[..i + 1][..i] == names[..i];
      if u.Some? {
        assignees := assignees + [u.value.id];
      }
      i := i + 1;
    }
    assert names[..i] == names;
  }
}
