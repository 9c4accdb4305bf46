# fresh-validation: `useForm` / `register` attribute deriver

This project models the attribute deriver of fresh-validation in Dafny.
`useForm(schema)` returns `register(name)`. That function looks up one field
of an object schema and returns the attribute hints for an HTML `<input>`:

- `name`, echoing the requested name;
- `required`, true unless the field is optional or nullable;
- `type`: `"password"` for the field named `password`, else `"email"` for a
  string field with the email marker, else `"text"`;
- bound attributes taken from the field's checks. A `min` check becomes
  `minlength` on string fields and `min` on other fields. A `max` check
  becomes `maxlength` or `max` in the same way.

An unknown name yields the empty record.

The schema library is reduced to what `register` reads of a field
definition: the type tag `typeName` (kept as the string the source compares
against `"ZodString"`), the `isEmail` marker, the `isOptional()`/`isNullable()`
answers, and the `checks` list of `{kind, value}` pairs. That list may be
absent, which is modelled as an `Option`. The schema's `shape` is a
`map<string, FieldDef>`. The result is a `map<string, AttrValue>` with
`AttrValue = S(string) | B(bool) | N(int)`.

Files:
- `wrappers.dfy`: the `Option` type.
- `use_form.dfy` (module `UseForm`): the data model and the operations. The
  reduce over the checks is the recursive left fold `FoldChecks`, and
  `register` is `Register(schema, name)`.
- `use_form_properties.dfy` (module `UseFormProperties`): an independent
  description of the bounds, `BoundsSpec`, built on `LastOfKind` ("the value of
  the last check of this kind"). It also holds the lemmas that connect the
  fold to that description and derive the listed properties.

## Model

| member | source | states |
|---|---|---|
| UseForm.Register | src/mod.ts:3-47 | The result is the empty record exactly when `name` is not a key of the schema. For a known field: `name` is the requested name, `required` is `!optional && !nullable`, and `type` is the derived input type. The keys are a subset of {name, required, type} plus the field's bound keys. A string field never carries `min`/`max`, and a non-string field never carries `minlength`/`maxlength`. |
| UseForm.InputType | src/mod.ts:11-18 | The type is one of "text", "password", "email". It is "password" exactly when the name is "password", whatever the definition is. For any other name it is "email" exactly when the field is a ZodString with the email marker, and "text" otherwise. |
| UseForm.ApplyCheck | src/mod.ts:22-38 | One reduce step. A "min" check adds or replaces exactly one key, `minlength` on a string field and `min` otherwise, with the check's value. A "max" check does the same with `maxlength`/`max`. Every other key keeps its value. A check of any other kind returns the accumulator unchanged. |
| UseForm.FoldChecks | src/mod.ts:21-39 | The reduce over the checks never removes a key and adds only the bound keys of the field's kind (minlength/maxlength for strings, min/max otherwise). Every key that is not a bound key keeps its value, so the bounds never overwrite `name`, `required` or `type`. |
| UseForm.Validation | src/mod.ts:21-39 | The bound record of a field, folded from the empty record over the checks (an absent list counts as empty), holds only the bound keys of the field's kind. |
| UseFormProperties.LastOfKind | src/mod.ts:21-39 | Reference meaning of the reduce. There is no value exactly when no check has the kind. Otherwise the value is that of the last check of that kind in list order. |
| UseFormProperties.FoldSnoc | src/mod.ts:21-39 | Folding a list with one more check appended equals one more reduce step on the fold of the list. |
| UseFormProperties.BoundsSpecSnoc | src/mod.ts:22-38 | Appending a check changes the reference bounds exactly as one reduce step changes the accumulator. |
| UseFormProperties.FoldMatchesSpec | src/mod.ts:21-39 | The reduce from the empty record equals the reference bounds: the lower key holds the last "min" value and the upper key the last "max" value, each present only when such a check exists. |
| UseFormProperties.RegisterBoundKeys | src/mod.ts:22-36 | A known field carries `minlength` iff it is a string field with a "min" check, and `min` iff it is a non-string field with a "min" check. `maxlength`/`max` follow the same rule for "max" checks. |
| UseFormProperties.LastCheckWins | src/mod.ts:21-39 | When several checks share the kind "min" (or "max"), the emitted bound holds the value of the last such check in list order. |
| UseFormProperties.OtherChecksAddNothing | src/mod.ts:38 | Removing, from anywhere in the list, a check whose kind is neither "min" nor "max" does not change the result of the reduce. |
| UseFormProperties.NoBoundChecksNoBounds | src/mod.ts:21 | A field whose checks are absent, or contain no "min" or "max" check, gets exactly the keys `name`, `required` and `type`. |
| UseFormProperties.RegisterIsBaseAndBounds | src/mod.ts:41-46 | Removing `name`, `required` and `type` from a known field's record leaves exactly the reference bounds. The spread of the bounds after the three fixed keys therefore overwrites nothing and loses nothing. |

## Left out

- The `console.warn` diagnostic on an unknown name (src/mod.ts:5) is output only. The model keeps just the empty-record return.
- `useForm` itself is only the closure that captures `schema` (src/mod.ts:2, 49). It is modelled by passing `schema` as the first argument of `Register`.
- The schema library's runtime (`_def.typeName`, the `isEmail` getter, `isOptional()`, `isNullable()`, and how wrappers such as `.optional()` change a definition's type tag and checks) is not part of this model. These are plain fields of `FieldDef`.
- Check values are modelled as integers. The source passes the value a check carries through unchanged, so a fractional bound such as 0.5 is outside the model.
- Key order of the JavaScript result object is not modelled: records are maps. Keys are modelled exactly; values are exact for integer bounds.
- `validateFormData`, `validateJSON` and `error` (the coercion, validation and error-lookup helpers) come from a module that is not part of this model.
- The fixture routes, islands, middleware and the test file are HTTP, session and UI plumbing. They are not modelled.
