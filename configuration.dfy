/** Process-wide pagination settings: the default page size and its ceiling. */
module Configuration {

  const DEFAULT_LIMIT: int := 20
  const DEFAULT_MAX_LIMIT: int := 100

  function Min(a: int, b: int): (m: int)
    ensures m <= a && m <= b && (m == a || m == b)
  {
    if a <= b then a else b
  }

  class Configuration {
    var limit: int
    var maxLimit: int

    constructor ()
      ensures limit == DEFAULT_LIMIT && maxLimit == DEFAULT_MAX_LIMIT
    {
      limit := DEFAULT_LIMIT;
      maxLimit := DEFAULT_MAX_LIMIT;
    }

    /** `limit=`: stores the value, clamped to the current ceiling. */
    method SetLimit(val: int)
      modifies this`limit
      ensures limit == Min(val, maxLimit)
      ensures limit <= maxLimit
      ensures val <= maxLimit ==> limit == val
      ensures maxLimit == old(maxLimit)
    {
      limit := Min(val, maxLimit);
    }

    /** `max_limit=`: stores the value as given; the stored `limit` is not clamped again. */
    method SetMaxLimit(val: int)
      modifies this`maxLimit
      ensures maxLimit == val
      ensures limit == old(limit)
    {
      maxLimit := val;
    }
  }

  /** The settings' behaviour as the configuration examples describe it. */
  method ConfigurationExamples()
  {
    var config := new Configuration();
    assert config.limit == 20 && config.maxLimit == 100;
    config.SetLimit(10);
    assert config.limit == 10;
    config.SetLimit(110);
    assert config.limit == 100;
    config.SetMaxLimit(20);
    assert config.maxLimit == 20 && config.limit == 100;
  }
}
