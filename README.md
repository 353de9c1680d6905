# OrderField: automatic order numbers for model records

This project models `OrderField` from the course application (`courses/fields.py`), a
positive-integer model field that numbers records automatically. Just before a record is
saved, the field's pre-save hook looks at the order slot of the instance. If the slot is
already set, the hook leaves it alone and returns it. If the slot is unset, the hook looks
at the records the model already has. When the field was declared with `for_fields`, it
keeps only the records that agree with the instance on every one of those fields. It then
assigns one more than the largest order among them, or 0 when there are none. The number
is written into the instance and returned.

The model has two modules:

- `Fields` (`fields.dfy`): the data model and the hook. A stored row is a `Record`: a map
  from column name to `Value` plus a natural-number `order`. The model's existing rows are
  a `seq<Record>`, passed to the hook as a parameter. The instance being saved is a
  `ModelInstance` object with an attribute map and a mutable `order: Option<nat>` slot.
  `OrderField` keeps its scope fields (`forFields`) and has the `PreSave` method, which may
  write only `inst.order`. The computation of the next number is a pure function,
  `NextOrder`, built from `ScopeQuery`/`BuildQuery` (the filter read off the instance),
  `Scope` (the filter applied) and `MaxOrder` (the latest row's order, or `None` when the
  filtered set is empty).
- `OrderProperties` (`order_properties.dfy`): what the numbering looks like across saves.
  It covers how scopes partition the table, why other scopes do not matter, why an empty
  scope list is the same as none, why numbers within a scope stay distinct and contiguous,
  and why repeated saves into an empty scope produce 0, 1, 2, …

Three details of the code are kept as written:

- The hook fires whenever the order attribute is unset (`courses/fields.py:26`). The
  `add` flag is ignored, so an update of a record whose order is unset also gets a number.
  `PreSave` takes `add` and its contract never mentions it.
- `if self.for_fields:` (`courses/fields.py:30`) treats an empty list like no list.
  `ScopeActive` models this, and `EmptyScopeListIsNoScope` proves the two give the same
  number.
- The latest row is selected by the field's own attribute name, but its order is read
  through the hard-coded `.order` (`courses/fields.py:35-36`). The model names the column
  `order`, which is the only case where the two agree.

The "does not exist" exception raised by `latest` on an empty set becomes `MaxOrder`
returning `None`. The whole computation sits inside the `try` at `courses/fields.py:28`,
and the `except` at line 37 catches every "does not exist" error. That includes the one
Django raises when the comprehension at line 32 reads a required foreign key that has not
been set. The model gives such an attribute the value `Unset`. The comprehension reads
the scope fields front to back and stops at the first one it cannot read. An `Unset`
field there gives `RelatedDoesNotExist`, which `NextOrder` answers with 0. A name that is
not an attribute of the instance at all gives `MissingAttribute`, a plain attribute error
that the `except` clause does not catch. It is returned as an error and the instance is
left unchanged. `UnsetBeforeMissingExample` and `MissingBeforeUnsetExample` show that
the order of the scope fields decides which of the two happens.

## Model

| member | source | states |
|---|---|---|
| `Fields.BuildQuery` | courses/fields.py:32 | The filter is built when every scope field can be read off the instance (an attribute, not an unset foreign key). Its keys are exactly the scope fields, and each maps to the instance's value. Otherwise it reports the first scope field that cannot be read, as a missing attribute exactly when it is not an attribute at all. |
| `Fields.ScopeQuery` | courses/fields.py:29-33 | With no scope fields (None or an empty list) the filter is empty. Otherwise it succeeds exactly when every scope field can be read off the instance. Its keys are then exactly the scope fields, each holding the instance's value. A failure names the first scope field that cannot be read, and says whether it is missing or an unset foreign key. |
| `Fields.Scope` | courses/fields.py:33 | The filtered rows are never more than the table's rows. |
| `Fields.MaxOrder` | courses/fields.py:35-37 | An empty set gives `None`, standing for "does not exist". A non-empty set gives an order that belongs to one of its rows and is at least every row's order. |
| `Fields.NextOrder` | courses/fields.py:28-38 | A missing scope attribute fails with that error, and only that error escapes. An unset foreign key reached first gives 0. With a filter the number is 0 exactly when the scope is empty. It is greater than every order in the scope, and with a non-empty scope it is one more than some order in it, so it equals the maximum plus one. |
| `Fields.OrderField.constructor` | courses/fields.py:21-23 | The field stores the `for_fields` it was given. |
| `Fields.OrderField.PreSave` | courses/fields.py:25-42 | A preset order is returned and left unchanged. An unset order gets `NextOrder` of the table, and that same value is written into the slot. On error the slot stays unset. Only `inst.order` may change, and `add` plays no part. |
| `OrderProperties.ScopeAppend` | courses/fields.py:29-33 | Filtering the concatenation of two tables gives the concatenation of their filtered rows. |
| `OrderProperties.ScopeUnfiltered` | courses/fields.py:29-30 | The empty filter keeps every row, in order. |
| `OrderProperties.ScopeMembers` | courses/fields.py:30-33 | A row is in the scope exactly when it is in the table and equals the filter on every scope field. |
| `OrderProperties.ScopeOfOthers` | courses/fields.py:30-33 | A table none of whose rows match has an empty scope. |
| `OrderProperties.SameScopeRowsSameOrder` | courses/fields.py:29-38 | Two tables with the same scope rows give the same number. |
| `OrderProperties.UnscopedUsesWholeTable` | courses/fields.py:29-30 | Without scope fields, every existing row takes part. The number is 0 only for an empty table. Otherwise it is above every row's order and one more than some row's order. |
| `OrderProperties.EmptyScopeListIsNoScope` | courses/fields.py:30 | `for_fields=[]` and no `for_fields` give the same number. |
| `OrderProperties.ScopeByFields` | courses/fields.py:30-33 | With a non-empty list of scope fields, a row takes part exactly when it is in the table and equals the instance on every listed field. |
| `OrderProperties.UnsetScopeFieldGivesZero` | courses/fields.py:28-38 | When the comprehension reaches an unset foreign key (every earlier scope field is an attribute), the number is 0, whatever the table holds and whatever scope fields follow. |
| `OrderProperties.UnsetBeforeMissingExample` | courses/fields.py:32-38 | `for_fields=['course', 'x']` with the course unset and no `x` gives 0. |
| `OrderProperties.MissingBeforeUnsetExample` | courses/fields.py:32 | `for_fields=['x', 'course']` on the same instance fails with the missing `x`. |
| `OrderProperties.OtherScopesIrrelevant` | courses/fields.py:30-36 | Adding rows from other scopes, before or after, does not change the instance's number. |
| `OrderProperties.QueryDependsOnScopeValues` | courses/fields.py:32 | Two instances that have the same scope fields, with the same values, build the same filter or fail the same way. |
| `OrderProperties.SameScopeSameOrder` | courses/fields.py:30-38 | Two instances that have the same scope fields, with the same values, get the same number from the same table, or the same error. |
| `OrderProperties.InstanceInOwnScope` | courses/fields.py:32-33 | The saved instance, stored with any order, passes the filter read off itself. |
| `OrderProperties.StoredJoinsScope` | courses/fields.py:33 | Storing a row that passes a filter appends it to that scope. |
| `OrderProperties.StoredLeavesOtherScope` | courses/fields.py:33 | Storing a row that fails a filter leaves that scope as it was. |
| `OrderProperties.SaveKeepsOrdersDistinct` | courses/fields.py:35-38 | If a scope's orders are pairwise distinct, they stay distinct after the instance is stored with its new number. |
| `OrderProperties.SaveKeepsScopeContiguous` | courses/fields.py:35-38 | A scope numbered 0 .. k-1 gives the next instance k, and is then numbered 0 .. k. |
| `OrderProperties.NumberedAt` | courses/fields.py:35-38 | In the numbered reference run, row `i` is the `i`-th instance, numbered `i`. |
| `OrderProperties.NextAfterNumbered` | courses/fields.py:35-38 | A scope made of k instances numbered 0 .. k-1 gives the next instance of that scope k. |
| `OrderProperties.SaveManyStep` | courses/fields.py:35-39 | One more save of an instance of a scope numbered 0 .. k-1 appends that instance, numbered k. |
| `OrderProperties.RepeatedSavesCountUp` | courses/fields.py:35-39 | Saving n instances, possibly with different attributes but all of the same scope, one after another into an initially empty scope leaves that scope holding exactly them, in save order, numbered 0, 1, …, n-1. |
| `OrderProperties.SameCourseExample` | courses/fields.py:12 | Rows ordered 1, 2 and 3 in one course give the next instance of that course 4. |
| `OrderProperties.OtherCourseExample` | courses/fields.py:13 | The first instance of another course gets 0, whatever the first course holds. |

## Left out

- The ORM plumbing is not modelled: subclassing `PositiveIntegerField`, `self.model.objects`, querysets, `latest` and `super().pre_save`. The model's rows are a parameter, and the pass-through returns the current value.
- The database write that follows the hook is not modelled, and neither are query or connection errors. The framework performs these outside the hook. `Stored` in `OrderProperties` stands for the write, so that successive saves can be described.
- The race in which two concurrent saves read the same maximum and get the same number is not modelled. The code does nothing against it, and the model is sequential.
- Tie-breaking among several rows with the same maximum order is not modelled, because every choice yields the same number.
- `__init__` forwards `*args`/`**kwargs` to the base field. This is not modelled, because it does not affect the number assigned.
- A scope field name that is not a column of the model makes the ORM raise a field error. The model leaves this out: a row that lacks a scope field simply does not match.
- A scope field that names the order column itself is not modelled. The instance's attribute map excludes the order slot.
- Field values are abstracted to `Value` (null, integer, string, foreign-key primary key, or `Unset` for a required foreign key not yet given), compared by equality as the database filter does.
- `Fields.Scope`: its own contract states only the size bound. Which rows it keeps is stated by `OrderProperties.ScopeMembers`, and their order by `ScopeAppend` and `StoredJoinsScope`.
- A stored row holding `Unset` is not ruled out. The database would refuse such a row, and no scope filter the model builds ever asks for `Unset`, so an `Unset` column never matches a scope field.
