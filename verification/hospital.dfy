/**
 * The hospital chain of responsibility (pattern/05_chain_of_resp.go).
 *
 * A patient carries three flags. Reception and the doctor each set their
 * own flag when it is unset and always hand the patient on to the next
 * department; the cashier ends the chain and, as the code stands, never
 * records the payment. Departments are linked through `next` pointers; a
 * chain is modelled as the sequence of departments reached from the first
 * one by following those pointers, and a missing (nil) `next` as the end of
 * that sequence. Handing a patient on to a nil department is a nil
 * interface call and panics.
 */
module Hospital {

  datatype Department = Reception | Doctor | Cashier

  datatype Patient = Patient(registrationDone: bool, doctorDone: bool, cashierDone: bool)

  /** The patient the demonstration starts with: Go's zero value, nothing done. */
  const Fresh: Patient := Patient(false, false, false)

  /** The lines the departments print, one per visit. */
  datatype Message =
    | Registering | AlreadyRegistered
    | VisitingDoctor | AlreadyVisitedDoctor
    | Paying | AlreadyPaid

  /**
   * The end of a run: the chain stopped at a cashier, or it handed the
   * patient on to a nil department and panicked. The patient's flags are
   * those set before the end in both cases; `log` is what was printed.
   */
  datatype Outcome =
    | Served(patient: Patient, log: seq<Message>)
    | Panicked(patient: Patient, log: seq<Message>)

  /** The same outcome with `msg` printed first. */
  function After(msg: Message, o: Outcome): (r: Outcome)
    ensures r.patient == o.patient && r.log == [msg] + o.log && r.Served? == o.Served?
  {
    match o
    case Served(p, log) => Served(p, [msg] + log)
    case Panicked(p, log) => Panicked(p, [msg] + log)
  }

  /** Execute on the first department of `chain`; an empty chain is a nil department. */
  function Execute(chain: seq<Department>, p: Patient): (r: Outcome)
    ensures |r.log| <= |chain|
    decreases |chain|
  {
    if |chain| == 0 then Panicked(p, [])
    else
      match chain[0]
      case Reception =>
        if p.registrationDone then After(AlreadyRegistered, Execute(chain[1..], p))
        else After(Registering, Execute(chain[1..], p.(registrationDone := true)))
      case Doctor =>
        if p.doctorDone then After(AlreadyVisitedDoctor, Execute(chain[1..], p))
        else After(VisitingDoctor, Execute(chain[1..], p.(doctorDone := true)))
      case Cashier =>
        if p.cashierDone then Served(p, [AlreadyPaid]) else Served(p, [Paying])
  }

  /** Reception registers an unregistered patient, then always forwards. */
  lemma ReceptionForwards(rest: seq<Department>, p: Patient)
    ensures Execute([Reception] + rest, p).patient == Execute(rest, p.(registrationDone := true)).patient
    ensures Execute([Reception] + rest, p).Served? == Execute(rest, p.(registrationDone := true)).Served?
  {
    assert ([Reception] + rest)[1..] == rest;
    if p.registrationDone {
      assert p.(registrationDone := true) == p;
    }
  }

  /** The doctor sees a patient not yet seen, then always forwards. */
  lemma DoctorForwards(rest: seq<Department>, p: Patient)
    ensures Execute([Doctor] + rest, p).patient == Execute(rest, p.(doctorDone := true)).patient
    ensures Execute([Doctor] + rest, p).Served? == Execute(rest, p.(doctorDone := true)).Served?
  {
    assert ([Doctor] + rest)[1..] == rest;
    if p.doctorDone {
      assert p.(doctorDone := true) == p;
    }
  }

  /** The cashier leaves the patient as it is and forwards to no one, whatever follows it. */
  lemma CashierStops(rest: seq<Department>, p: Patient)
    ensures Execute([Cashier] + rest, p) == Execute([Cashier], p)
    ensures Execute([Cashier] + rest, p).Served? && Execute([Cashier] + rest, p).patient == p
  {
  }

  /** The departments a patient reaches: up to and including the first cashier. */
  function Reached(chain: seq<Department>): (r: seq<Department>)
    ensures |r| <= |chain| && r == chain[..|r|]
    ensures Cashier !in r[..if |r| == 0 then 0 else |r| - 1]
    ensures Cashier in chain ==> |r| > 0 && r[|r| - 1] == Cashier
    ensures Cashier !in chain ==> r == chain
  {
    if |chain| == 0 then []
    else if chain[0] == Cashier then [Cashier]
    else [chain[0]] + Reached(chain[1..])
  }

  /**
   * What a run does, stated without following the chain step by step: the
   * run ends normally exactly when a cashier is reached, and each flag ends
   * up set when it was set before or its department comes before the first
   * cashier. The cashier's own flag is never set.
   */
  lemma {:induction false} ExecuteEffect(chain: seq<Department>, p: Patient)
    ensures Execute(chain, p).Served? <==> Cashier in chain
    ensures Execute(chain, p).patient ==
      Patient(p.registrationDone || Reception in Reached(chain),
              p.doctorDone || Doctor in Reached(chain),
              p.cashierDone)
    ensures |Execute(chain, p).log| == |Reached(chain)|
    decreases |chain|
  {
    if |chain| > 0 && chain[0] != Cashier {
      var q := if chain[0] == Reception then p.(registrationDone := true) else p.(doctorDone := true);
      ExecuteEffect(chain[1..], q);
      assert Reached(chain) == [chain[0]] + Reached(chain[1..]);
      assert forall d :: d in chain <==> d == chain[0] || d in chain[1..];
      if chain[0] == Reception {
        if p.registrationDone { assert q == p; }
      } else {
        if p.doctorDone { assert q == p; }
      }
    }
  }

  /** Running the same chain a second time leaves the patient's flags unchanged. */
  lemma SecondRunChangesNothing(chain: seq<Department>, p: Patient)
    ensures Execute(chain, Execute(chain, p).patient).patient == Execute(chain, p).patient
  {
    ExecuteEffect(chain, p);
    ExecuteEffect(chain, Execute(chain, p).patient);
  }

  /**
   * Since no department records the payment, a patient who has not paid is
   * asked to pay on every run that reaches the cashier.
   */
  lemma {:induction false} AlwaysAskedToPay(chain: seq<Department>, p: Patient)
    requires !p.cashierDone && Cashier in chain
    ensures |Execute(chain, p).log| > 0
    ensures Execute(chain, p).log[|Execute(chain, p).log| - 1] == Paying
    decreases |chain|
  {
    if chain[0] != Cashier {
      var q := if chain[0] == Reception then p.(registrationDone := true) else p.(doctorDone := true);
      assert Cashier in chain[1..];
      AlwaysAskedToPay(chain[1..], q);
      if (chain[0] == Reception && p.registrationDone) || (chain[0] == Doctor && p.doctorDone) {
        assert q == p;
      }
      assert Execute(chain, p).log == [Execute(chain, p).log[0]] + Execute(chain[1..], q).log;
    }
  }

  /** The chain the demonstration links: reception, then the doctor, then the cashier. */
  const DemoChain: seq<Department> := [Reception, Doctor, Cashier]

  /**
   * A fresh patient is registered and sees the doctor but is not marked as
   * paid; run again, every department reports the work as done except the
   * cashier, who asks for payment once more.
   */
  lemma Demo()
    ensures Execute(DemoChain, Fresh) == Served(Patient(true, true, false), [Registering, VisitingDoctor, Paying])
    ensures Execute(DemoChain, Patient(true, true, false)) ==
      Served(Patient(true, true, false), [AlreadyRegistered, AlreadyVisitedDoctor, Paying])
  {
    assert DemoChain[1..] == [Doctor, Cashier];
    assert DemoChain[1..][1..] == [Cashier];
  }

  /** A chain whose last link is left nil panics after the earlier departments have done their work. */
  lemma UnlinkedChainPanics()
    ensures Execute([Reception, Doctor], Fresh) == Panicked(Patient(true, true, false), [Registering, VisitingDoctor])
  {
    assert [Reception, Doctor][1..] == [Doctor];
    assert [Reception, Doctor][1..][1..] == [];
  }
}
