/**
 * The field checks create.php and edit.php both run on a submitted task:
 * each field yields at most one message, and the messages are collected
 * field by field (name, priority, tanggal, deadline) rather than stopping at
 * the first failure.
 */
module FieldRules {
  import opened Wrappers
  import opened PhpStrings
  import opened Calendar
  import opened Tasks

  const NameEmpty := "Nama tugas tidak boleh kosong"
  const NameTooLong := "Nama tugas maksimal 255 karakter"
  const PriorityMissing := "Prioritas harus dipilih"
  const PriorityInvalid := "Prioritas tidak valid"
  const TanggalMissing := "Tanggal harus diisi"
  const TanggalInvalid := "Format tanggal tidak valid"
  const DeadlineMissing := "Deadline harus diisi"
  const DeadlineInvalid := "Format deadline tidak valid"
  const DeadlinePast := "Deadline tidak boleh kurang dari hari ini"
  const Duplicate := "Tugas dengan nama yang sama sudah ada dan belum selesai"

  /** The (already trimmed) name: blank, else longer than 255 bytes. */
  function NameErrors(name: string): seq<string> {
    if IsEmpty(name) then [NameEmpty]
    else if ByteLength(name) > 255 then [NameTooLong]
    else []
  }

  /** The priority: blank, else outside the three values. */
  function PriorityErrors(priority: string): seq<string> {
    if IsEmpty(priority) then [PriorityMissing]
    else if !IsPriority(priority) then [PriorityInvalid]
    else []
  }

  /** The creation date: blank, else not a strict `Y-m-d` date. */
  function TanggalErrors(tanggal: string): seq<string> {
    if IsEmpty(tanggal) then [TanggalMissing]
    else if !ValidateDate(tanggal) then [TanggalInvalid]
    else []
  }

  /** The deadline as edit.php checks it: blank, else not a strict `Y-m-d` date. */
  function DeadlineFormatErrors(deadline: string): seq<string> {
    if IsEmpty(deadline) then [DeadlineMissing]
    else if !ValidateDate(deadline) then [DeadlineInvalid]
    else []
  }

  /** The name check as create.php and edit.php write it: append at most one message to `$errors`. */
  method CheckName(errors: seq<string>, name: string) returns (result: seq<string>)
    ensures result == errors + NameErrors(name)
  {
    result := errors;
    if IsEmpty(name) {
      result := result + [NameEmpty];
    } else if ByteLength(name) > 255 {
      result := result + [NameTooLong];
    }
  }

  method CheckPriority(errors: seq<string>, priority: string) returns (result: seq<string>)
    ensures result == errors + PriorityErrors(priority)
  {
    result := errors;
    if IsEmpty(priority) {
      result := result + [PriorityMissing];
    } else if !IsPriority(priority) {
      result := result + [PriorityInvalid];
    }
  }

  method CheckTanggal(errors: seq<string>, tanggal: string) returns (result: seq<string>)
    ensures result == errors + TanggalErrors(tanggal)
  {
    result := errors;
    if IsEmpty(tanggal) {
      result := result + [TanggalMissing];
    } else if !ValidateDate(tanggal) {
      result := result + [TanggalInvalid];
    }
  }

  /** The deadline check of edit.php, which stops at the format. */
  method CheckDeadlineFormat(errors: seq<string>, deadline: string) returns (result: seq<string>)
    ensures result == errors + DeadlineFormatErrors(deadline)
  {
    result := errors;
    if IsEmpty(deadline) {
      result := result + [DeadlineMissing];
    } else if !ValidateDate(deadline) {
      result := result + [DeadlineInvalid];
    }
  }

  /** A name the handlers accept. */
  predicate AcceptableName(name: string) {
    !IsEmpty(name) && ByteLength(name) <= 255
  }

  /** Position of a field message in the fixed checking order; -1 for anything else. */
  function FieldRank(msg: string): int {
    if msg == InvalidId then 0
    else if msg == NameEmpty || msg == NameTooLong then 1
    else if msg == PriorityMissing || msg == PriorityInvalid then 2
    else if msg == TanggalMissing || msg == TanggalInvalid then 3
    else if msg == DeadlineMissing || msg == DeadlineInvalid || msg == DeadlinePast then 4
    else -1
  }

  /** Every message is a field message, in strictly increasing field rank: in checking order, one per field at most. */
  predicate InFieldOrder(errors: seq<string>) {
    && (forall k :: 0 <= k < |errors| ==> 0 <= FieldRank(errors[k]))
    && (forall i, j :: 0 <= i < j < |errors| ==> FieldRank(errors[i]) < FieldRank(errors[j]))
  }

  /** Every message in `errors` belongs to a field checked after field `r`. */
  predicate RanksAbove(errors: seq<string>, r: int) {
    forall k :: 0 <= k < |errors| ==> FieldRank(errors[k]) > r
  }

  /** The rank of each message of the checking order. */
  lemma FieldRanks()
    ensures FieldRank(InvalidId) == 0
    ensures FieldRank(NameEmpty) == 1 && FieldRank(NameTooLong) == 1
    ensures FieldRank(PriorityMissing) == 2 && FieldRank(PriorityInvalid) == 2
    ensures FieldRank(TanggalMissing) == 3 && FieldRank(TanggalInvalid) == 3
    ensures FieldRank(DeadlineMissing) == 4 && FieldRank(DeadlineInvalid) == 4 && FieldRank(DeadlinePast) == 4
    ensures FieldRank(Duplicate) == -1
  {
  }

  /** Putting the (at most one) message of field `r` before messages of later fields keeps the checking order. */
  lemma PrependField(x: seq<string>, r: int, rest: seq<string>)
    requires |x| <= 1 && 0 <= r
    requires x != [] ==> FieldRank(x[0]) == r
    requires InFieldOrder(rest) && RanksAbove(rest, r)
    ensures InFieldOrder(x + rest) && RanksAbove(x + rest, r - 1)
  {
    if x != [] {
      var s := x + rest;
      assert forall k :: 1 <= k < |s| ==> s[k] == rest[k - 1];
      assert forall k :: 0 <= k < |s| ==> FieldRank(s[k]) >= r;
    } else {
      assert x + rest == rest;
    }
  }

  /** At most one message, of field `r`. */
  predicate OneOfField(x: seq<string>, r: int) {
    |x| <= 1 && (x != [] ==> FieldRank(x[0]) == r)
  }

  /** The four field lists, each of its own field, concatenated in checking order. */
  lemma FourFieldsInOrder(a: seq<string>, b: seq<string>, c: seq<string>, d: seq<string>)
    requires OneOfField(a, 1) && OneOfField(b, 2) && OneOfField(c, 3) && OneOfField(d, 4)
    ensures InFieldOrder(a + b + c + d) && RanksAbove(a + b + c + d, 0)
  {
    assert InFieldOrder(d) && RanksAbove(d, 3) by {
      PrependField(d, 4, []);
      assert d + [] == d;
    }
    var cd := c + d;
    assert InFieldOrder(cd) && RanksAbove(cd, 2) by {
      PrependField(c, 3, d);
    }
    var bcd := b + cd;
    assert InFieldOrder(bcd) && RanksAbove(bcd, 1) by {
      PrependField(b, 2, cd);
    }
    assert InFieldOrder(a + bcd) && RanksAbove(a + bcd, 0) by {
      PrependField(a, 1, bcd);
    }
    ConcatAssociates(a, b, c, d);
  }

  lemma AppendAssociates(x: seq<string>, y: seq<string>, z: seq<string>)
    ensures x + y + z == x + (y + z)
  {
  }

  lemma ConcatAssociates(a: seq<string>, b: seq<string>, c: seq<string>, d: seq<string>)
    ensures a + b + c + d == a + (b + (c + d))
  {
  }

  /** Each field check yields at most one message, and it carries that field's rank. */
  lemma FieldErrorsRanked(name: string, priority: string, tanggal: string, deadline: string)
    ensures OneOfField(NameErrors(name), 1) && OneOfField(PriorityErrors(priority), 2)
    ensures OneOfField(TanggalErrors(tanggal), 3) && OneOfField(DeadlineFormatErrors(deadline), 4)
  {
    FieldRanks();
  }

  /** The duplicate-name message is never among field messages. */
  lemma DuplicateIsNotAField(errors: seq<string>)
    requires InFieldOrder(errors)
    ensures Duplicate !in errors
  {
    FieldRanks();
  }

  /** At most one name message, and "too long" only for a name that is not blank. */
  lemma NameErrorsCases(name: string)
    ensures |NameErrors(name)| <= 1
    ensures NameErrors(name) == [] <==> AcceptableName(name)
    ensures NameErrors(name) == [NameTooLong] ==> !IsEmpty(name) && ByteLength(name) > 255
  {
  }

  /** A name of more than 255 characters is always too long; an ASCII name is judged by its character count. */
  lemma NameLengthCountsBytes(name: string)
    ensures !IsEmpty(name) && |name| > 255 ==> NameErrors(name) == [NameTooLong]
    ensures IsAscii(name) && !IsEmpty(name) ==> (NameErrors(name) == [NameTooLong] <==> |name| > 255)
  {
    if IsAscii(name) {
      AsciiByteLength(name);
    }
  }

  /** 128 copies of 'é' are only 128 characters but 256 bytes, so `strlen` rejects them. */
  lemma NonAsciiNameTooLong()
    ensures NameErrors(seq(128, _ => '\U{E9}')) == [NameTooLong]
  {
    var name := seq(128, _ => '\U{E9}');
    RepeatedByteLength('\U{E9}', 128);
    assert name[0] != '0';
  }

  /** "0" counts as blank for `empty()`: a name, priority or date of "0" is reported missing. */
  lemma ZeroIsMissing()
    ensures NameErrors("0") == [NameEmpty]
    ensures PriorityErrors("0") == [PriorityMissing]
    ensures TanggalErrors("0") == [TanggalMissing]
    ensures DeadlineFormatErrors("0") == [DeadlineMissing]
  {
  }

  /** A blank priority is "harus dipilih", never "tidak valid"; the three values pass. */
  lemma PriorityErrorsCases(priority: string)
    ensures PriorityErrors(priority) == [PriorityMissing] <==> IsEmpty(priority)
    ensures PriorityErrors(priority) == [PriorityInvalid] <==> !IsEmpty(priority) && !IsPriority(priority)
    ensures PriorityErrors(priority) == [] <==> IsPriority(priority)
  {
  }

  /** A date field passes exactly when it is a strict `Y-m-d` date (blank strings never parse). */
  lemma DateErrorsCases(value: string)
    ensures TanggalErrors(value) == [] <==> ValidateDate(value)
    ensures DeadlineFormatErrors(value) == [] <==> ValidateDate(value)
  {
    if IsEmpty(value) {
      assert ParseYmd(value).None?;
    }
  }
}
