/**
 * The repository's own sort scenarios replayed on the model: lists of
 * integers sorted with the default key, a list with a repeated value whose
 * copies are told apart by their position, and four log records ordered by
 * their creation time.
 */
module SortExamples {
  import opened SortSpec
  import opened MergeSort

  /**
   * A log record as the log receiver hands it to the sort. `createdAt` is
   * the creation time in seconds since midnight; all records of one
   * retrieval share the same date.
   */
  datatype LogRecord = LogRecord(createdAt: int, firstName: string, secondName: string, userId: string)

  function CreatedAt(r: LogRecord): int { r.createdAt }

  /** A value together with the position it had before sorting. */
  datatype Tagged = Tagged(value: int, position: int)

  function Value(x: Tagged): int { x.value }

  function Pick<T>(x: T, key: T -> int, k: int): seq<T> {
    if key(x) == k then [x] else []
  }

  lemma ElementsWithKeyThree<T>(x0: T, x1: T, x2: T, key: T -> int, k: int)
    ensures ElementsWithKey([x0, x1, x2], key, k)
         == Pick(x0, key, k) + Pick(x1, key, k) + Pick(x2, key, k)
  {
    assert [x0, x1, x2] == [x0] + [x1, x2];
    assert [x1, x2] == [x1] + [x2];
    assert [x2] == [x2] + [];
    ElementsWithKeyCons(x0, [x1, x2], key, k);
    ElementsWithKeyCons(x1, [x2], key, k);
    ElementsWithKeyCons(x2, [], key, k);
  }

  lemma ElementsWithKeyFour<T>(x0: T, x1: T, x2: T, x3: T, key: T -> int, k: int)
    ensures ElementsWithKey([x0, x1, x2, x3], key, k)
         == Pick(x0, key, k) + Pick(x1, key, k) + Pick(x2, key, k) + Pick(x3, key, k)
  {
    assert [x0, x1, x2, x3] == [x0] + [x1, x2, x3];
    ElementsWithKeyCons(x0, [x1, x2, x3], key, k);
    ElementsWithKeyThree(x1, x2, x3, key, k);
  }

  lemma ElementsWithKeyFive<T>(x0: T, x1: T, x2: T, x3: T, x4: T, key: T -> int, k: int)
    ensures ElementsWithKey([x0, x1, x2, x3, x4], key, k)
         == Pick(x0, key, k) + Pick(x1, key, k) + Pick(x2, key, k) + Pick(x3, key, k) + Pick(x4, key, k)
  {
    assert [x0, x1, x2, x3, x4] == [x0] + [x1, x2, x3, x4];
    ElementsWithKeyCons(x0, [x1, x2, x3, x4], key, k);
    ElementsWithKeyFour(x1, x2, x3, x4, key, k);
  }

  /** `[1, 2, 3, 4, 5]` is the sorted, stable arrangement of `[2, 1, 5, 4, 3]`. */
  lemma DigitsOrder()
    ensures Sorted([1, 2, 3, 4, 5], Identity)
    ensures SameOrderWithinKeys([1, 2, 3, 4, 5], [2, 1, 5, 4, 3], Identity)
  {
    forall k ensures ElementsWithKey([1, 2, 3, 4, 5], Identity, k) == ElementsWithKey([2, 1, 5, 4, 3], Identity, k) {
      ElementsWithKeyFive(1, 2, 3, 4, 5, Identity, k);
      ElementsWithKeyFive(2, 1, 5, 4, 3, Identity, k);
    }
    assert AdjacentSorted([1, 2, 3, 4, 5], Identity);
    AdjacentSortedIffSorted([1, 2, 3, 4, 5], Identity);
  }

  /** `[2, 1, 5, 4, 3]` sorted with the default key is `[1, 2, 3, 4, 5]`. */
  method SortDigits() returns (r: seq<int>)
    ensures r == [1, 2, 3, 4, 5]
  {
    var a := new int[5][2, 1, 5, 4, 3];
    assert a[..] == [2, 1, 5, 4, 3];
    SortDefaultKey(a, None);
    DigitsOrder();
    SortedStableUnique(a[..], [1, 2, 3, 4, 5], Identity);
    r := a[..];
  }

  /** The empty list stays empty and a one-element list stays as it is. */
  method SortEmptyAndSingle() returns (e: seq<int>, o: seq<int>)
    ensures e == [] && o == [1]
  {
    var empty := new int[0];
    SortDefaultKey(empty, None);
    e := empty[..];
    var one := new int[1][1];
    assert one[..] == [1];
    SortDefaultKey(one, None);
    DefaultKeySortUnique(one[..], [1]);
    o := one[..];
  }

  /** `[2, 1]` sorted with the default key is `[1, 2]`. */
  method SortTwo() returns (r: seq<int>)
    ensures r == [1, 2]
  {
    var a := new int[2][2, 1];
    assert a[..] == [2, 1];
    SortDefaultKey(a, None);
    assert multiset([2, 1]) == multiset([1, 2]);
    DefaultKeySortUnique(a[..], [1, 2]);
    r := a[..];
  }

  /**
   * `[1, 1, 2]`, with the `1` from position 0 ahead of the one from
   * position 2, is the sorted, stable arrangement of `[1, 2, 1]`.
   */
  lemma DuplicatesOrder()
    ensures Sorted([Tagged(1, 0), Tagged(1, 2), Tagged(2, 1)], Value)
    ensures SameOrderWithinKeys([Tagged(1, 0), Tagged(1, 2), Tagged(2, 1)], [Tagged(1, 0), Tagged(2, 1), Tagged(1, 2)], Value)
  {
    forall k ensures ElementsWithKey([Tagged(1, 0), Tagged(1, 2), Tagged(2, 1)], Value, k)
                  == ElementsWithKey([Tagged(1, 0), Tagged(2, 1), Tagged(1, 2)], Value, k) {
      ElementsWithKeyThree(Tagged(1, 0), Tagged(1, 2), Tagged(2, 1), Value, k);
      ElementsWithKeyThree(Tagged(1, 0), Tagged(2, 1), Tagged(1, 2), Value, k);
    }
    assert AdjacentSorted([Tagged(1, 0), Tagged(1, 2), Tagged(2, 1)], Value);
    AdjacentSortedIffSorted([Tagged(1, 0), Tagged(1, 2), Tagged(2, 1)], Value);
  }

  /**
   * `[1, 2, 1]` sorted by value is `[1, 1, 2]`, and the `1` that came first
   * is still first.
   */
  method SortDuplicates() returns (r: seq<Tagged>)
    ensures r == [Tagged(1, 0), Tagged(1, 2), Tagged(2, 1)]
  {
    var a := new Tagged[3][Tagged(1, 0), Tagged(2, 1), Tagged(1, 2)];
    assert a[..] == [Tagged(1, 0), Tagged(2, 1), Tagged(1, 2)];
    Sort(a, Value);
    DuplicatesOrder();
    SortedStableUnique(a[..], [Tagged(1, 0), Tagged(1, 2), Tagged(2, 1)], Value);
    r := a[..];
  }

  const Record1 := LogRecord(2898, "Малика", "Одинцова", "315195")    // 00:48:18
  const Record2 := LogRecord(59817, "Элла", "Кононова", "102095")     // 16:36:57
  const Record3 := LogRecord(48090, "Неонила", "Боброва", "670144")   // 13:21:30
  const Record4 := LogRecord(29907, "Анатолий", "Потапов", "283098")  // 08:18:27

  /** Ordered by creation time, the fixture records come as 1, 4, 3, 2. */
  lemma LogRecordsOrder()
    ensures Sorted([Record1, Record4, Record3, Record2], CreatedAt)
    ensures SameOrderWithinKeys([Record1, Record4, Record3, Record2], [Record1, Record2, Record3, Record4], CreatedAt)
  {
    var expected := [Record1, Record4, Record3, Record2];
    forall k ensures ElementsWithKey(expected, CreatedAt, k)
                  == ElementsWithKey([Record1, Record2, Record3, Record4], CreatedAt, k) {
      ElementsWithKeyFour(Record1, Record4, Record3, Record2, CreatedAt, k);
      ElementsWithKeyFour(Record1, Record2, Record3, Record4, CreatedAt, k);
    }
    assert AdjacentSorted(expected, CreatedAt);
    AdjacentSortedIffSorted(expected, CreatedAt);
  }

  /** The four fixture records sorted by creation time come out as 1, 4, 3, 2. */
  method SortLogRecords() returns (r: seq<LogRecord>)
    ensures r == [Record1, Record4, Record3, Record2]
    ensures r[0].createdAt < r[1].createdAt < r[2].createdAt < r[3].createdAt
  {
    var a := new LogRecord[4][Record1, Record2, Record3, Record4];
    assert a[..] == [Record1, Record2, Record3, Record4];
    Sort(a, CreatedAt);
    LogRecordsOrder();
    SortedStableUnique(a[..], [Record1, Record4, Record3, Record2], CreatedAt);
    r := a[..];
  }
}
