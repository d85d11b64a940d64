/** Employee directory: registration with a unique CPF (`cadastrar_funcionario`)
    and credential lookup (`login`). */
module Directory {
  import opened Records

  /** The UNIQUE constraint on `funcionarios.cpf`. */
  predicate CpfUnique(t: seq<Employee>)
  {
    forall i, j :: 0 <= i < |t| && 0 <= j < |t| && t[i].cpf == t[j].cpf ==> i == j
  }

  /** Some row already carries `cpf`. */
  function CpfTaken(t: seq<Employee>, cpf: string): (b: bool)
    ensures b <==> exists i :: 0 <= i < |t| && t[i].cpf == cpf
  {
    if |t| == 0 then false
    else
      var b := CpfTaken(t[..|t| - 1], cpf);
      assert forall i :: 0 <= i < |t| - 1 ==> t[..|t| - 1][i] == t[i];
      b || t[|t| - 1].cpf == cpf
  }

  datatype Registration = Registered(id: int) | DuplicateCpf

  /** `cadastrar_funcionario`: the INSERT either adds the row or fails on the
      CPF constraint, leaving the table as it was. */
  function Register(s: Store, name: string, cpf: string, password: string): (r: Step<Registration>)
    ensures r.out.DuplicateCpf? <==> exists i :: 0 <= i < |s.employees| && s.employees[i].cpf == cpf
    ensures r.out.DuplicateCpf? ==> r.store == s
    ensures r.out.Registered? ==>
      && r.out.id == |s.employees| + 1
      && r.store == s.(employees := s.employees + [Employee(name, cpf, password)])
    ensures CpfUnique(s.employees) ==> CpfUnique(r.store.employees)
  {
    if CpfTaken(s.employees, cpf) then Step(s, DuplicateCpf)
    else Step(s.(employees := s.employees + [Employee(name, cpf, password)]), Registered(|s.employees| + 1))
  }

  /** What `login` hands back: the id and name of the matching row. */
  datatype User = User(id: int, name: string)

  predicate Matches(e: Employee, cpf: string, password: string)
  {
    e.cpf == cpf && e.password == password
  }

  /** The first row at or after index `from` whose CPF and password both match. */
  function FirstMatch(t: seq<Employee>, cpf: string, password: string, from: nat): (r: Option<int>)
    requires from <= |t|
    ensures r.Some? ==> from < r.value <= |t| && Matches(t[r.value - 1], cpf, password)
    ensures r.Some? ==> forall i :: from <= i < r.value - 1 ==> !Matches(t[i], cpf, password)
    ensures r.None? ==> forall i :: from <= i < |t| ==> !Matches(t[i], cpf, password)
    decreases |t| - from
  {
    if from == |t| then None
    else if Matches(t[from], cpf, password) then Some(from + 1)
    else FirstMatch(t, cpf, password, from + 1)
  }

  /** `login`: succeeds exactly when some row matches both CPF and password. */
  function Login(employees: seq<Employee>, cpf: string, password: string): (r: Option<User>)
    ensures r.None? <==> forall i :: 0 <= i < |employees| ==> !Matches(employees[i], cpf, password)
    ensures r.Some? ==>
      && HasId(employees, r.value.id)
      && Matches(employees[r.value.id - 1], cpf, password)
      && r.value.name == employees[r.value.id - 1].name
  {
    match FirstMatch(employees, cpf, password, 0)
    case None => None
    case Some(id) => Some(User(id, employees[id - 1].name))
  }

  /** With unique CPFs the matching row is the only row carrying that CPF, so
      login identifies one employee. */
  lemma LoginIdentifiesTheEmployee(employees: seq<Employee>, cpf: string, password: string, i: int)
    requires CpfUnique(employees)
    requires 0 <= i < |employees| && employees[i].cpf == cpf
    ensures Login(employees, cpf, password) == (if employees[i].password == password then Some(User(i + 1, employees[i].name)) else None)
  {
  }
}
