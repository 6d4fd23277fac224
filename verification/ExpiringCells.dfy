/**
 The expiring counter cell every in-process store is built from: a value that
 reads as zero once its window has ended, and that the first update after the
 end restarts. Times and durations are in one integer unit.
 */
module ExpiringCells {
  import opened Prelude

  datatype Cell = Cell(value: u64, expiry: nat) {

    predicate ExpiredAt(when: nat) {
      expiry <= when
    }

    function ValueAt(when: nat): u64 {
      if ExpiredAt(when) then 0 else value
    }

    function Ttl(when: nat): nat {
      SaturatingSub(expiry, when)
    }

    /** One whole `update` call, taken as a single step. */
    function Update(delta: u64, ttl: nat, when: nat): (r: Cell)
      ensures !ExpiredAt(when) && value + delta < U64 ==> r.ValueAt(when) == ValueAt(when) + delta
      ensures ttl > 0 && ExpiredAt(when) ==> r.ValueAt(when) == delta && r.Ttl(when) == ttl
      ensures !ExpiredAt(when) ==> r.expiry == expiry
    {
      if ExpiredAt(when) then Cell(delta, when + ttl) else Cell(Wrap(value + delta), expiry)
    }

    /** Fold in hits counted elsewhere and adopt the authority's window end. */
    function AddAndSetExpiry(delta: u64, until: nat): Cell {
      Cell(Wrap(value + delta), until)
    }
  }

  /** The cell as the source keeps it: two atomics, changed in place. */
  class AtomicExpiringValue {
    var value: u64
    var expiry: nat

    function Contents(): Cell
      reads this
    {
      Cell(value, expiry)
    }

    constructor (value: u64, expiry: nat)
      ensures Contents() == Cell(value, expiry)
    {
      this.value := value;
      this.expiry := expiry;
    }

    method ValueAt(when: nat) returns (v: u64)
      ensures v == Contents().ValueAt(when)
    {
      if expiry <= when {
        return 0;
      }
      return value;
    }

    method AddAndSetExpiry(delta: u64, until: nat) returns (v: u64)
      modifies this
      ensures Contents() == old(Contents()).AddAndSetExpiry(delta, until)
      ensures v == value
    {
      expiry := until;
      value := Wrap(value + delta);
      v := value;
    }

    /** Opens a new window exactly when the current one has ended. */
    method UpdateIfExpired(ttl: nat, when: nat) returns (isNew: bool)
      modifies this`expiry
      ensures isNew <==> old(Contents()).ExpiredAt(when)
      ensures expiry == if isNew then when + ttl else old(expiry)
    {
      var seen := expiry;
      if seen <= when {
        expiry := when + ttl;
        return true;
      }
      return false;
    }

    method Update(delta: u64, ttl: nat, when: nat) returns (v: u64)
      modifies this
      ensures Contents() == old(Contents()).Update(delta, ttl, when)
      ensures v == value
    {
      var isNew := UpdateIfExpired(ttl, when);
      if isNew {
        value := delta;
        return delta;
      }
      value := Wrap(value + delta);
      return value;
    }
  }
}
